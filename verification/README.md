# A verified model of the tinyos kernel core

tinyos is a small 32-bit x86 hobby kernel. It has threads, paging, a slab
allocator, a TCP/IP stack, FAT32 and Unix v6 file-system drivers, a VGA
text console and PCI enumeration. This project models the parts of that
kernel that are sequential algorithms over kernel state. It then proves
what those algorithms promise: container invariants, allocator
bookkeeping, network-stack arithmetic, on-disk layout computations, path
walking, and cursor and console rules.

Port I/O, interrupts, locks and sleeping are not modelled. The model has no
hardware, so what the kernel reads from a device is a parameter:

- a disk is a function from block number to the 512 bytes of that block;
- PCI configuration space is a function from address to dword;
- the CMOS clock registers are given as values;
- a file system's mount, getroot and lookup routines are parameters of the
  virtual file-system layer.

Code that changes state in place is modelled as Dafny classes. Their fields
are the source's fields, and their methods carry `modifies` clauses and
state the whole new state. Code that only computes is modelled as functions
and lemmas. Wherever the source uses 32-bit or 16-bit arithmetic,
wrap-around is written out explicitly (`Wrap32`, `Wrap16`, `bv8`).

Each source file becomes one module. Two further modules hold what the
file systems share: `BlkDev` (the disk view and little-endian fields) and
`CStrings` (C-string scanning and `strcmp`). A third, `CTypes`, holds
fixed-width integer helpers, bounded byte reads, `Option`, and a first-match search.

| module | source file | classes (state updated in place) |
|---|---|---|
| `Rtc` | sys/kern/mrbscript/rtc.rb | none |
| `KernLib` | sys/kern/kernlib.c | none (array methods) |
| `Elf` | sys/kern/elf.c | none |
| `CharDev` | sys/kern/chardev.c | `CdBuf` |
| `List` | sys/kern/list.c | `ListHead` |
| `Queue` | sys/kern/queue.c | `QueueHead` |
| `Timer` | sys/kern/timer.c | `TimerList` |
| `PktBuf` | sys/kern/pktbuf.c | `PktBuf` |
| `NetDev` | sys/kern/netdev.c | `NdQueue`, `NetDev`, `NetDevTable` |
| `Page` | sys/kern/page.c | `PageAlloc` |
| `Malloc` | sys/kern/malloc.c | `Heap` |
| `Vmem` | sys/kern/vmem.c | `Mapper`, `VmMap` |
| `Threads` | sys/kern/thread.c | `Thread`, `Dispatcher` |
| `InetUtil` | sys/net/inet/util.c | none (checksum loops) |
| `Ip` | sys/net/inet/ip.c | `ReasmInfo`, `ReasmTable` |
| `Arp` | sys/net/inet/arp.c | `ArpTable` |
| `Tcp` | sys/net/inet/tcp.c | `TcpCb` |
| `Fs` | sys/kern/fs.c | `Vfs` |
| `Fat32` | sys/fs/fat32/fat32.c | `FatFile` |
| `V6fs` | sys/fs/v6fs/v6fs.c | none (read loops) |
| `Vga` | sys/kern/vga.c | `Console` |
| `Pci` | kernel/pci.c | `PciBus` |
| `Pts` | sys/dev/pts/pts.c | `PtsTable` |

Several operations of the source do not do what their authors evidently
intended. Each such operation is modelled twice: once as written, with a
lemma that exhibits the failing input, and once corrected, with the
intended property proved. The rest of the model uses the corrected form.
These cases are listed under "## Findings".

## Model

| member | source | states |
|---|---|---|
| Rtc.FromBcd | sys/kern/mrbscript/rtc.rb:11-13 | fromBCD of any byte is at most 165, and at most 99 on a valid packed-decimal byte |
| Rtc.FromBcdToBcd | sys/kern/mrbscript/rtc.rb:11-13 | decoding the packed-decimal encoding of n < 100 gives n back, so 0x34 reads as 34 |
| Rtc.ToBcdFromBcd | sys/kern/mrbscript/rtc.rb:11-13 | encoding a decoded packed-decimal byte gives the byte back |
| Rtc.PmBit | sys/kern/mrbscript/rtc.rb:23 | `hour & 0x80` is either 0 or 0x80 |
| Rtc.TensBits | sys/kern/mrbscript/rtc.rb:23 | `hour & 0x70` is the tens digit in place: a multiple of 16, at most 0x70, whose sixteenths are the tens of the low seven bits |
| Rtc.DecodeHour | sys/kern/mrbscript/rtc.rb:23 | the decoded hour keeps the PM flag, and its low seven bits are the packed-decimal value of the register's low seven bits |
| Rtc.DecodeRegisters | sys/kern/mrbscript/rtc.rb:15-27 | with registerB bit 2 clear every register is decoded from packed decimal (the hour keeping its PM flag); with it set all raw values are kept |
| Rtc.To24HourAsWritten | sys/kern/mrbscript/rtc.rb:29-32 | the conversion as written runs only when registerB bit 1 is clear and the PM flag is set; then PM hours 1..11 read back through To12Hour as themselves with PM, 12 PM gives 0, and otherwise the hour is unchanged |
| Rtc.NoonReadsAsMidnight | sys/kern/mrbscript/rtc.rb:30-31 | as written, 12 PM (register 0x92) comes out as hour 0 |
| Rtc.MidnightReadsAsNoon | sys/kern/mrbscript/rtc.rb:30-31 | as written, 12 AM (register 0x12) comes out as hour 12 |
| Rtc.To24Hour | sys/kern/mrbscript/rtc.rb:29-32 | (corrected; as written: Rtc.To24HourAsWritten) in 12-hour mode the hour is below 24 and reads back through To12Hour as the register's hour and AM/PM flag; in 24-hour mode it is left alone |
| Rtc.To12Hour | sys/kern/mrbscript/rtc.rb:29-32 | the 12-hour reading of a 24-hour value: an hour in 1..12 and a PM flag set exactly from noon on |
| Rtc.To24HourRoundTrip | sys/kern/mrbscript/rtc.rb:29-32 | the corrected conversion followed by To12Hour gives back every 12-hour reading |
| Rtc.To12HourRoundTrip | sys/kern/mrbscript/rtc.rb:29-32 | every 24-hour value is the corrected conversion of its own 12-hour reading |
| Rtc.ReadClock | sys/kern/mrbscript/rtc.rb:19-32 | (corrected; as written: Rtc.ReadClockAsWritten) all fields but the hour are as decoded; in 12-hour mode the hour is below 24 and reads back through To12Hour as the decoded hour and AM/PM flag; in 24-hour mode it is the decoded hour |
| Rtc.ReadClockAsWritten | sys/kern/mrbscript/rtc.rb:19-32 | the script as written: all fields but the hour are as decoded; in 12-hour mode PM hours 1..11 read back through To12Hour correctly, 12 PM gives 0, and AM hours (12 AM included) are left as decoded |
| Rtc.ReadClockAsWrittenNoon | sys/kern/mrbscript/rtc.rb:19-32 | the script as written prints hour 0 when the clock reads 12 PM (register 0x92, packed decimal, 12-hour mode) |
| Rtc.Ordinal | sys/kern/mrbscript/rtc.rb:34-46 | the suffix is one of st, nd, rd, th, and th for every n in 11..19 |
| Rtc.OrdinalOfDays | sys/kern/mrbscript/rtc.rb:34-46 | over days 1..31 the suffix is st exactly for 1, 21, 31, nd for 2, 22, rd for 3, 23 and th for all others |
| Rtc.MonthName | sys/kern/mrbscript/rtc.rb:48-56 | months 1..12 give their table entry; month 0 gives the last entry (index -1); months past 12 give no name |
| Rtc.MonthNamesDistinct | sys/kern/mrbscript/rtc.rb:48-51 | distinct months in 1..12 get distinct names |
| KernLib.Abs | sys/kern/kernlib.c:5-7 | the result is n for n >= 0 and -n otherwise, hence non-negative, except that INT_MIN negates to itself in 32-bit arithmetic |
| KernLib.StrnLen | sys/kern/kernlib.c:17-21 | the length is at most n and the array size, no byte before it is NUL, and it stops at n or at a NUL |
| KernLib.Strnlen | sys/kern/kernlib.c:17-21 | the loop returns StrnLen(s, n), i.e. min(n, index of the first NUL) |
| KernLib.StopIndex | sys/kern/kernlib.c:23-26 | the loop of strncmp stops after at most n bytes, every byte before the stop is a non-NUL byte equal in both strings, and a stop before n is at a NUL of s1 or a mismatch |
| KernLib.StrncmpAsWritten | sys/kern/kernlib.c:23-26 | when the loop stops before n, the result is 0 exactly when the bytes at the stop are equal |
| KernLib.Strncmp | sys/kern/kernlib.c:23-26 | the loop returns the difference of the bytes at StopIndex, as StrncmpAsWritten |
| KernLib.StrncmpAsWrittenCountsPastN | sys/kern/kernlib.c:23-26 | as written, comparing "ab" with "ac" over n = 1 gives -1, not 0: the byte after the n compared is subtracted |
| KernLib.Strncmp0 | sys/kern/kernlib.c:23-26 | the corrected strncmp is 0 when the first n bytes agree and otherwise equals the as-written difference |
| KernLib.Strncmp0ZeroIff | sys/kern/kernlib.c:23-26 | the corrected strncmp is 0 exactly when the two strings, each cut at n or at its NUL, are equal |
| KernLib.Memcpy | sys/kern/kernlib.c:28-32 | dest[d..d+n] becomes the first n bytes of src, the rest of dest is unchanged, and the returned position is d + n |
| KernLib.Bzero | sys/kern/kernlib.c:34-38 | the first n bytes become 0 and the rest are unchanged |
| KernLib.Memset | sys/kern/kernlib.c:40-44 | the first n bytes become c truncated to 8 bits and the rest are unchanged |
| Elf.IsValidExecAsWritten | sys/kern/elf.c:8-19 | the as-written test answers 0 or 1 |
| Elf.IsValidExecAsWrittenRejectsAll | sys/kern/elf.c:8-19 | with the as-written strncmp, every header is rejected: a header with the right magic makes strncmp return its class byte, which is non-zero |
| Elf.IsValidExec | sys/kern/elf.c:8-19 | the test with a strncmp that stops after n bytes answers 0 or 1 |
| Elf.IsValidExecIff | sys/kern/elf.c:8-19 | that test answers 1 exactly when the magic is "\177ELF", the class is ELFCLASS32, the data encoding is ELFDATA2LSB and the type is ET_EXEC |
| CharDev.Distance | sys/kern/chardev.c:31-54 | the number of slots from tail to head in a ring of n slots is below n, and walking that many slots from tail reaches head |
| CharDev.LimitSlot | sys/kern/chardev.c:45 | `(tail + (size - 1)) % size`, the write limit, is the slot size - 1 places after tail, the one just before it |
| CharDev.NextSlot | sys/kern/chardev.c:34-36 | advancing a slot with wrap at size moves one place further round the ring |
| CharDev.SlotDistance | sys/kern/chardev.c:31-54 | the distance from tail to the slot i places after it is i |
| CharDev.SlotInjective | sys/kern/chardev.c:31-54 | different offsets below size from the same tail are different slots |
| CharDev.RingDrop | sys/kern/chardev.c:33-39 | after the k oldest bytes are taken, the rest of the contents are the ring from the slot k places after tail |
| CharDev.FillRing | sys/kern/chardev.c:46-52 | bytes written from head (the slot after the stored bytes) extend the stored contents, in order, when they fit below size |
| CharDev.WriteLoop | sys/kern/chardev.c:43-54 | the copy loop writes count bytes or stops at the slot before tail, leaves head just after the written bytes, and places src's first w bytes from the old head on with wrap |
| CharDev.ReadLoop | sys/kern/chardev.c:31-41 | the copy loop reads min(count, stored) bytes, moves tail that many slots, copies the oldest bytes into dest in order and leaves the rest of dest alone |
| CharDev.CdBuf.constructor | sys/kern/chardev.c:21-29 | cdbuf_create gives an empty buffer with free = size and head = tail = 0 over the given memory |
| CharDev.CdBuf.Read | sys/kern/chardev.c:31-41 | cdbuf_read returns min(count, stored), delivers the oldest bytes in the order they were written, removes them, raises free by as much and keeps head |
| CharDev.CdBuf.Write | sys/kern/chardev.c:43-54 | cdbuf_write stores min(count, size - 1 - stored) bytes after the stored ones, so at most size - 1 bytes are ever held; free drops by as much and tail is kept |
| List.ListHead.constructor | sys/kern/list.h:3-6 | a fresh list head links to itself in both directions |
| List.RingLinks | sys/kern/list.h:3-6 | in a well-formed ring every node's next is its successor and prev its predecessor, and in a ring of two or more no node links to itself |
| List.RingRotate | sys/kern/list.c:27-33 | starting a well-formed ring at its second node gives a well-formed ring |
| List.RingRotateBy | sys/kern/list.c:27-41 | starting a well-formed ring at any of its nodes gives a well-formed ring |
| List.RingRotateFront | sys/kern/list.c:27-33 | moving the node after the head to the back keeps the ring well formed |
| List.RingRotateBack | sys/kern/list.c:35-41 | moving the last node to the front keeps the ring well formed |
| List.Init | sys/kern/list.c:4-7 | list_init makes the head a one-node ring |
| List.IsEmpty | sys/kern/list.c:9-11 | list_is_empty answers true exactly when the ring holds the head alone |
| List.PushFront | sys/kern/list.c:13-18 | list_pushfront leaves a ring with the item just after the head and the old nodes after it in order |
| List.PushBack | sys/kern/list.c:20-25 | list_pushback leaves a ring with the item just before the head, after all old nodes |
| List.RotateForward | sys/kern/list.c:27-33 | list_rotate_forward moves the first element to the back; a lone head is unchanged |
| List.RotateBackward | sys/kern/list.c:35-41 | list_rotate_backward moves the last element to the front; a lone head is unchanged |
| List.Remove | sys/kern/list.c:43-47 | list_remove leaves the other nodes as a ring without the item, links the item to itself, and touches only the links of its two neighbours |
| List.Pop | sys/kern/list.c:49-55 | list_pop of an empty list gives NULL; otherwise it gives the first element, self-linked, and the rest stays a ring in order |
| Queue.QueueHead.constructor | sys/kern/queue.c:5-8 | queue_init gives an empty queue with len free places |
| Queue.QueueHead.Enqueue | sys/kern/queue.c:10-16 | a full queue refuses with -1 and is unchanged; otherwise the item goes to the back, free drops by one and the result is 0 |
| Queue.QueueHead.Dequeue | sys/kern/queue.c:18-24 | an empty queue gives NULL and is unchanged; otherwise the front item comes out self-linked, the rest keep their order and free rises by one |
| Timer.SumAppend | sys/kern/timer.c:22-30 | the total of the delta-encoded expiries of two consecutive runs of timers is the sum of their totals |
| Timer.SumPrefixMono | sys/kern/timer.c:22-30 | the partial sums of the deltas, the absolute deadlines, never decrease along the list |
| Timer.AbsoluteSorted | sys/kern/timer.c:22-30 | the absolute deadlines of any delta-encoded timer list are in ascending order |
| Timer.Insert | sys/kern/timer.c:22-32 | inserting into the deadline list adds exactly one element |
| Timer.InsertPermutation | sys/kern/timer.c:22-32 | the deadline list after the insertion holds the old deadlines plus the new one |
| Timer.InsertSorted | sys/kern/timer.c:22-32 | inserting into a sorted deadline list keeps it sorted |
| Timer.InsertAt | sys/kern/timer.c:24 | the new deadline goes after every deadline at or before it and before the first one strictly after it, so equal deadlines fire in start order |
| Timer.InsertBefore | sys/kern/timer.c:24-32 | splicing a timer in before the first later one, with that one's delta reduced by the new delta, gives the deadlines with the new one inserted |
| Timer.InsertAtEnd | sys/kern/timer.c:28-32 | appending a timer whose delta is its deadline minus the total gives the deadlines with the new one inserted |
| Timer.ShiftHead | sys/kern/timer.c:41-42 | decrementing the first delta moves every absolute deadline one tick earlier |
| Timer.DropZeroHead | sys/kern/timer.c:44-49 | a first timer with delta 0 is due now, and the deadlines of the others are unchanged when it is removed |
| Timer.TimerList.constructor | sys/kern/timer.c:12 | the timer list starts empty |
| Timer.TimerList.Start | sys/kern/timer.c:15-34 | timer_start leaves the absolute deadlines equal to the old ones with the new deadline inserted in order |
| Timer.TimerList.Tick | sys/kern/timer.c:37-50 | timer_tick on an empty list does nothing; otherwise every deadline moves one tick earlier (unless the first was already 0), the due timers fire in list order and are removed, and the next remaining deadline is in the future |
| PktBuf.Reserved | sys/kern/pktbuf.c:23-30 | reserving headroom fails exactly when head + size would pass end; otherwise head moves forward by size and tail is pulled up to it when it was behind |
| PktBuf.HeaderAdded | sys/kern/pktbuf.c:32-38 | adding a header fails exactly when it does not fit between begin and head; otherwise head moves back by size and tail and end are kept |
| PktBuf.HeaderRemoved | sys/kern/pktbuf.c:40-42 | removing a header moves head forward by size and keeps tail and end |
| PktBuf.CopiedIn | sys/kern/pktbuf.c:44-48 | copying in at an offset raises tail to the end of the copied bytes when they reach past it, and keeps head and end |
| PktBuf.ReserveInside | sys/kern/pktbuf.c:23-30 | a successful reservation keeps the pointers inside the buffer and leaves head at or before tail |
| PktBuf.AddRemoveRoundTrip | sys/kern/pktbuf.c:32-42 | removing a header just added restores the pointers |
| PktBuf.RemoveAddRoundTrip | sys/kern/pktbuf.c:32-42 | adding back a header just removed succeeds and restores the pointers |
| PktBuf.PktBuf.Create | sys/kern/pktbuf.c:3-9 | pktbuf_create spans the whole buffer: head at its start, tail at its end |
| PktBuf.PktBuf.Alloc | sys/kern/pktbuf.c:11-15 | pktbuf_alloc gives a fresh buffer of the requested size with no data: head and tail at the start |
| PktBuf.PktBuf.ReserveHeadroom | sys/kern/pktbuf.c:23-30 | pktbuf_reserve_headroom gives -1 and changes nothing when the room is missing, and otherwise 0 with the pointers of Reserved |
| PktBuf.PktBuf.AddHeader | sys/kern/pktbuf.c:32-38 | pktbuf_add_header gives NULL and changes nothing when the header does not fit, and otherwise the new head, the pointers being those of HeaderAdded |
| PktBuf.PktBuf.RemoveHeader | sys/kern/pktbuf.c:40-42 | pktbuf_remove_header sets the pointers of HeaderRemoved |
| PktBuf.PktBuf.Copyin | sys/kern/pktbuf.c:44-48 | pktbuf_copyin writes the size bytes at head + offset, leaves the other bytes alone and sets the pointers of CopiedIn |
| NetDev.NextShift | sys/kern/netdev.c:29-48 | advancing an index with wrap at count moves every later ring slot one place closer |
| NetDev.RingPop | sys/kern/netdev.c:29-38 | the oldest queued packet sits at tail, and the rest of the queue starts at the next slot |
| NetDev.RingPush | sys/kern/netdev.c:40-48 | storing a packet at the slot after the queued ones extends the queue by that packet |
| NetDev.NdQueue.constructor | sys/kern/netdev.c:19-27 | ndqueue_create gives an empty queue of count slots over the given memory, with free = count and head = tail = 0 |
| NetDev.NdQueue.Enqueue | sys/kern/netdev.c:40-48 | ndqueue_enqueue gives 0 and changes nothing when free is 0; otherwise the packet joins the back of the queue, free drops by one and the result is 1 |
| NetDev.NdQueue.Dequeue | sys/kern/netdev.c:29-38 | ndqueue_dequeue as written gives NULL both for an empty queue and for a full one (head == tail in both); otherwise the front packet, in FIFO order, with free raised by one |
| NetDev.FullRingLooksEmpty | sys/kern/netdev.c:29-48 | filling a one-slot queue and then dequeuing gives NULL: the queued packet is never delivered |
| NetDev.NdQueue.DequeueByFree | sys/kern/netdev.c:29-38 | the dequeue that tests free instead of head != tail gives NULL only on an empty queue and otherwise the front packet in FIFO order |
| NetDev.NetDevTable.constructor | sys/kern/netdev.c:7-11 | netdev_init empties every slot of the device table and sets the count to 0 |
| NetDev.NetDevTable.Add | sys/kern/netdev.c:13-17 | netdev_add stores the device in the next slot, gives it that slot's number as devno and raises the count by one |
| Page.PageAddr | sys/kern/page.c:38-39 | the address page_alloc hands out for a descriptor is a page-aligned kernel virtual address |
| Page.PageIndexOfAddr | sys/kern/page.c:38-44 | page_free finds the descriptor of the page page_alloc returned for it |
| Page.Descending | sys/kern/page.c:54-59 | the pages recycle_area pushes, read from the front of the free list, are its range in descending order |
| Page.EndOfMap | sys/kern/page.c:64-68 | the memory-map walk stops at the first entry with base and length both 0 |
| Page.LastUsableEnd | sys/kern/page.c:64-68 | the memory size taken from the map (the end of the last usable region) is never negative |
| Page.ClampMemSize | sys/kern/page.c:69-70 | the memory size is clamped to KERN_STRAIGHT_MAP_SIZE and rounded down to a whole page, losing less than a page |
| Page.RecycleReachesEnd | sys/kern/page.c:51-83 | in page_init, recycle_area's range runs from the first whole page after the descriptor table to the last page of memory |
| Page.RecycleStep | sys/kern/page.c:54-59 | recycling one more reserved page keeps the free list consistent with the flags |
| Page.AllocKeeps | sys/kern/page.c:30-40 | taking the first free page and marking it allocated keeps the free list consistent: distinct pages, each free and not reserved |
| Page.FreeKeeps | sys/kern/page.c:42-49 | pushing an allocated page back and clearing its bit keeps the free list consistent |
| Page.Cleared | sys/kern/page.c:55 | clearing the reserved bits of a range keeps the number of descriptors |
| Page.PageAlloc.Init | sys/kern/page.c:62-83 | page_init sizes the descriptor table from the memory map, leaves the pages holding the table reserved and puts every later page on the free list, highest first |
| Page.PageAlloc.Alloc | sys/kern/page.c:30-40 | page_alloc gives NULL and changes nothing when no page is free; otherwise it hands out the first free page's address, removes it from the list, marks it allocated and lowers the count |
| Page.PageAlloc.Free | sys/kern/page.c:42-49 | page_free of an allocated page puts it first on the free list, clears its allocated bit and raises the count |
| Page.PageAlloc.RecycleArea | sys/kern/page.c:51-60 | recycle_area frees the whole pages of the area: they join the front of the free list in descending order with their reserved bits cleared |
| Page.RecycleLoop | sys/kern/page.c:54-59 | the recycle loop pushes each page of the range and clears its reserved bit, keeping the free list consistent |
| Page.ScanMemSize | sys/kern/page.c:64-68 | the map walk yields the end of the last usable region before the terminating entry |
| Malloc.RoundUp | sys/kern/malloc.c:72 | the rounded size is a multiple of 8 in 32-bit range, the smallest one at or above the request, and wraps to 0 for requests within 7 of 2^32 |
| Malloc.RouteOf | sys/kern/malloc.c:73-81 | a rounded size above 8 * MAX_BIN and at most a page takes a whole page, one above a page is unsupported, and any other goes to bin size / 8, an index at most MAX_BIN |
| Malloc.BinIndexOverflows | sys/kern/malloc.c:9-78 | MAX_BIN is 254, and requests of 2025 to 2032 bytes go to bin 254, one past the last element of `bin[MAX_BIN]` |
| Malloc.BinIndexInRange | sys/kern/malloc.c:18-78 | with MAX_BIN + 1 bins every bin index malloc computes is in range |
| Malloc.NewFreeList | sys/kern/malloc.c:38-42 | the free list getnewchunk threads has one entry per object, the last-carved object first |
| Malloc.Without | sys/kern/list.c:43-47 | removing a chunk from its bin keeps exactly the other chunks and never lengthens the list |
| Malloc.ObjAddrLess | sys/kern/malloc.c:37-42 | objects carved later lie at higher addresses |
| Malloc.NewChunkOk | sys/kern/malloc.c:25-45 | a new chunk is well formed: all its objects are free, distinct, inside the page after the header, and nfree = nobjs |
| Malloc.ObjectInPage | sys/kern/malloc.c:91 | masking an object's address down to its page gives the page of its chunk, so free finds the right header |
| Malloc.InBin | sys/kern/malloc.c:50-51 | every chunk on a bin's list has a header recording that bin |
| Malloc.AllocKeepsHeap | sys/kern/malloc.c:74 | taking a free page for a whole-page request keeps the heap well formed, and that page holds no chunk |
| Malloc.AddChunkKeepsHeap | sys/kern/malloc.c:60-64 | appending a new well-formed chunk on a fresh page to its bin keeps the heap well formed |
| Malloc.TakeKeepsHeap | sys/kern/malloc.c:52-56 | popping the first free object of a chunk keeps the heap well formed |
| Malloc.PushKeepsHeap | sys/kern/malloc.c:97-98 | pushing an allocated object of a chunk back on its free list keeps the heap well formed |
| Malloc.ReleaseKeepsHeap | sys/kern/malloc.c:93-95 | removing a chunk from its bin and freeing its page keeps the heap well formed |
| Malloc.Heap.constructor | sys/kern/malloc.c:20-23 | (corrected; as written: BinIndexOverflows, the source declares `bin[MAX_BIN]`) malloc_init gives MAX_BIN + 1 empty bins and no chunks |
| Malloc.Heap.GetNewChunk | sys/kern/malloc.c:25-45 | getnewchunk fails exactly for object sizes below 4 or above the space after the header, or when no page is free; otherwise a new chunk takes the first free page and holds every object, all free, the last carved first; the page leaves the free list and is marked allocated, and a failure leaves the page allocator unchanged |
| Malloc.FreeHits | sys/kern/malloc.c:50-52 | one flag per chunk of the bin, true exactly when the chunk has a free object |
| Malloc.NextPage | sys/kern/page.c:30-41 | the page page_alloc hands out next: none exactly when the free-page list is empty |
| Malloc.GetObjSpecMeaning | sys/kern/malloc.c:47-67 | getobj returns NULL exactly when no chunk of the bin has a free object and getnewchunk fails; otherwise the object was free on the first chunk with a free object, or comes from a new chunk appended to the bin; it is no longer free, and every other header is unchanged |
| Malloc.Heap.FindFree | sys/kern/malloc.c:50-58 | the bin walk stops at the first chunk with a free object, or at the end when none has one |
| Malloc.Heap.Grow | sys/kern/malloc.c:60-64 | grow succeeds exactly when getnewchunk can make a chunk; the new chunk, on the first free page, is appended to bin b with all its objects free, and every other bin and every existing header is unchanged; the page leaves the free list and is marked allocated; a failed grow changes no bin, header, free page or page flag |
| Malloc.Heap.Take | sys/kern/malloc.c:52-56 | the object handed out is the head of that chunk's free list, which loses it and one from nfree; every other header is unchanged; the object lies in its chunk's page |
| Malloc.Heap.GetObj | sys/kern/malloc.c:47-67 | getobj's object, bins and headers are those of GetObjSpec on the heap before the call and the next free page; the object's page mask finds its chunk, of that bin, where it is no longer free; exactly when it made a new chunk the first free page leaves the free list and is marked allocated, and otherwise the page allocator is unchanged |
| Malloc.Heap.Malloc | sys/kern/malloc.c:69-84 | (bin array corrected as in the constructor) unsupported sizes give NULL; whole-page sizes give the first free page (NULL exactly when none is left) and leave bins and headers alone; bin sizes behave as GetObjSpec on the request's bin; a page is taken off the free list and marked allocated exactly for a whole-page result or a new chunk, and otherwise the free list and page flags are unchanged |
| Malloc.Heap.Free | sys/kern/malloc.c:86-102 | free pushes the object back on its chunk's free list, or, when that would free every object, removes the chunk from its bin and gives its page back to the page allocator, at the front of the free list and no longer marked allocated |
| Vmem.PageBase | sys/kern/vmem.c:140 | masking off the low bits gives the page boundary at or below x, within a page of it |
| Vmem.Align | sys/kern/vmem.c:137-140 | the recorded start is page-aligned and start plus the recorded in-page offset is the requested start; the size is a page multiple computed in 32 bits |
| Vmem.AlignCovers | sys/kern/vmem.c:137-140 | when nothing wraps, the aligned range covers the requested range and overshoots its end by less than a page |
| Vmem.Mapper.constructor | sys/kern/vmem.c:56-64 | a new mapper is not yet attached to any area |
| Vmem.ClashIffIntersect | sys/kern/vmem.c:143-149 | for ranges that do not wrap, the overlap test fires whenever the ranges share an address, and for non-empty ranges only then |
| Vmem.AddKeepsDisjoint | sys/kern/vmem.c:143-159 | an area that passes the overlap test against every area keeps the area list free of overlaps |
| Vmem.ContainsUnique | sys/kern/vmem.c:181-191 | in an area list without overlaps (and no area ending past 4 GiB) at most one area contains a given address |
| Vmem.VmMap.constructor | sys/kern/vmem.c:120-128 | vm_map_new yields an empty area list with flags 0 |
| Vmem.VmMap.AddArea | sys/kern/vmem.c:134-163 | vm_add_area gives -1 and changes nothing when the aligned range fails the overlap test against some area; otherwise it appends the aligned area, points the mapper at it and gives 0 |
| Vmem.VmMap.FindArea | sys/kern/vmem.c:181-191 | vm_findarea gives the first area with start <= addr < start + size, and NULL exactly when no area contains addr |
| Threads.Thread.constructor | sys/kern/thread.c:62-66 | a new thread record is zeroed, RUNNING, with the given pid and stack pointer and a fresh empty memory map |
| Threads.WakeSplit | sys/kern/thread.c:191-202 | the threads thread_wakeup wakes and those it leaves waiting together are exactly the old waiters |
| Threads.WakeMembers | sys/kern/thread.c:195 | every woken thread was waiting on the cause, and every thread left waiting was waiting on another one |
| Threads.WakeFrame | sys/kern/thread.c:191-202 | after the wakeup no thread is on the queues twice, and the queues hold the same threads as before |
| Threads.WakeStep | sys/kern/thread.c:193-200 | examining one more waiter either pushes it in front of the woken threads (reverse order) or keeps it at the back of the waiters |
| Threads.WakeAdvance | sys/kern/thread.c:193-200 | one iteration of the wakeup loop moves a matching waiter from the wait queue to the front of the run queue, and otherwise only steps past it |
| Threads.WakeValid | sys/kern/thread.c:191-202 | after the wakeup the queues still satisfy the dispatcher invariant |
| Threads.WakeLoop | sys/kern/thread.c:193-201 | the loop leaves the non-matching waiters on the wait queue in order, pushes the matching ones to the front of the run queue (last one first) and marks them RUNNING |
| Threads.RunKeeps | sys/kern/thread.c:132-138 | thread_run keeps the dispatcher invariant: no thread twice, current on no queue, run queue RUNNING, wait queue WAITING |
| Threads.SchedKeeps | sys/kern/thread.c:149-167 | thread_sched keeps the dispatcher invariant when the run queue is not empty |
| Threads.NewBrkRoundsUp | sys/kern/thread.c:233 | when nothing wraps the new break is page-aligned and the first page boundary at or above brk + incr |
| Threads.Dispatcher.constructor | sys/kern/thread.c:67 | the dispatcher starts with no current thread, empty queues and pid_next 0 |
| Threads.Dispatcher.NewThread | sys/kern/thread.c:62-113 | each new thread gets pid_next, which then increments (modulo 2^32), and starts RUNNING with an empty memory map |
| Threads.Dispatcher.Run | sys/kern/thread.c:132-138 | thread_run sets RUNNING, and the thread becomes current if there is none, otherwise joins the back of the run queue |
| Threads.Dispatcher.Sched | sys/kern/thread.c:149-167 | thread_sched requeues current by state (RUNNING at the back of the run queue, WAITING at the back of the wait queue, EXITED dropped) and then makes the head of the run queue current; with an empty run queue the machine halts |
| Threads.Dispatcher.Sleep | sys/kern/thread.c:176-181 | thread_sleep makes current WAITING on the given cause |
| Threads.Dispatcher.Exit | sys/kern/thread.c:208-212 | thread_exit marks current EXITED |
| Threads.Dispatcher.Wakeup | sys/kern/thread.c:191-202 | thread_wakeup moves every waiter on the cause to the front of the run queue as RUNNING and leaves the other waiters in order |
| Threads.Dispatcher.Sbrk | sys/kern/thread.c:223-241 | sys_sbrk gives -1 for a negative increment or one that passes the stack pointer and the current break for 0; otherwise it returns the old break and moves the break to brk + incr rounded up to a page; the page-aligned added range becomes a new area exactly when it clashes with no existing area, and the area list is unchanged otherwise |
| InetUtil.OnesSum | sys/net/inet/util.c:30-31 | folding a sum of words to 16 bits gives a value of at most 0xffff, 0 only for a zero sum, congruent to the sum modulo 0xffff |
| InetUtil.ChecksumOf | sys/net/inet/util.c:18-34 | the checksum fits in 16 bits, and added to the little-endian word sum of the data (an odd last byte zero-padded) gives a multiple of 0xffff: it is the one's complement of the one's-complement sum |
| InetUtil.OnesSumUnique | sys/net/inet/util.c:30-31 | those three facts fix the folded sum, so any way of folding carries gives the same result |
| InetUtil.FoldKeeps | sys/net/inet/util.c:20-31 | one fold step keeps the sum modulo 0xffff and its being zero, shrinks a sum of 17 bits or more, and bounds the result |
| InetUtil.TotalStep | sys/net/inet/util.c:20-21 | the word sum of the data is its first little-endian word plus the word sum of the rest |
| InetUtil.Checksum | sys/net/inet/util.c:18-34 | the loop with its early folds at bit 31, the zero-padded odd byte and the final fold returns ChecksumOf(data) |
| InetUtil.TotalAppendWord | sys/net/inet/util.c:20-21 | appending a word to even-length data adds that word to the word sum |
| InetUtil.ChecksumVerifies | sys/net/inet/util.c:18-34 | appending the checksum of even-length data to it makes the checksum of the whole 0 |
| InetUtil.TotalConcat | sys/net/inet/util.c:20-21 | the word sum of even-length data followed by more data is the sum of the two word sums |
| InetUtil.ChecksumFieldVerifies | sys/net/inet/util.c:18-34 | a checksum computed with a zeroed checksum field at an even offset, then stored there, makes the checksum of the whole 0 |
| InetUtil.WordAt | sys/net/inet/util.c:48 | a word read from a buffer is below 65536 |
| InetUtil.Finish | sys/net/inet/util.c:56-64 | the odd byte, final fold and complement of checksum2 give a 16-bit result |
| InetUtil.Loop2AsWritten | sys/net/inet/util.c:41-55 | the word loop of checksum2 as written ends with a 16-bit result |
| InetUtil.Checksum2AsWritten | sys/net/inet/util.c:36-65 | checksum2 as written gives a 16-bit result |
| InetUtil.Checksum2AsWrittenOddLen | sys/net/inet/util.c:42-46 | with len1 odd, checksum2 as written of [1] and [2,3,4,5] is 0xf8f7 while the checksum of [1,2,3,4,5] is 0xf9f6: the straddling word adds the whole first word of data2 shifted by 8 bits, and reading resumes two bytes into data2 instead of one |
| InetUtil.Checksum2 | sys/net/inet/util.c:36-65 | the corrected checksum2 equals the checksum of data1 followed by data2, for every len1 |
| InetUtil.PartsSplit | sys/net/inet/util.c:104-112 | the host part and the network part of an address byte share no bit and together make the byte |
| InetUtil.HostPart | sys/net/inet/util.c:104-107 | ipaddr_hostpart sets each of the 4 bytes to addr & ~mask and leaves the rest of dst alone |
| InetUtil.NetworkPart | sys/net/inet/util.c:109-112 | ipaddr_networkpart sets each of the 4 bytes to addr & mask and leaves the rest of dst alone |
| Ip.InHolesConcat | sys/net/inet/ip.c:195-245 | a position is missing from two consecutive runs of holes exactly when it is missing from one of them |
| Ip.Splice | sys/net/inet/ip.c:204-227 | replacing one hole by others changes the missing positions only by that hole and the new ones |
| Ip.Pieces | sys/net/inet/ip.c:204-227 | the at most two holes left of an overlapped hole cover exactly its positions outside the fragment, and neither overlaps the fragment |
| Ip.ReplaceStep | sys/net/inet/ip.c:195-227 | one turn of the hole loop keeps the earlier holes, leaves the replacements clear of the fragment, and removes exactly the fragment's positions of that hole |
| Ip.FirstInf | sys/net/inet/ip.c:148-149 | the search of modify_inf_holelist stops at the first hole ending at INF, or at the end |
| Ip.CapInf | sys/net/inet/ip.c:147-159 | (corrected; as written: Ip.CapInfAsWritten) capping the INF hole at the datagram's last byte keeps every missing position up to that byte, adds none, removes the positions past it, and changes nothing when no hole ends at INF |
| Ip.ModifyInfHolelist | sys/net/inet/ip.c:147-159 | (corrected; as written: Ip.CapInfAsWritten) the list walk computes CapInf and reports which hole, if any, it removed |
| Ip.CapInfAsWritten | sys/net/inet/ip.c:147-159 | modify_inf_holelist as written, with newsize = flast + 1, never lengthens the hole list |
| Ip.HoleLoopAsWritten | sys/net/inet/ip.c:195-237 | the hole loop of ip_rx as written, with modify_inf_holelist cutting the INF hole at datalen = flast + 1 in 16 bits; each hole left to visit leaves at most two behind |
| Ip.HoleLoopAsWrittenStrands | sys/net/inet/ip.c:147-237 | over holes [0, 99] and [200, INF], a last fragment of bytes 0..300 leaves hole [301, 301] as written, a position past the datagram that no fragment fills, so reassembly never completes; with the cut at the last byte no hole is left |
| Ip.FragFirst | sys/net/inet/ip.c:191 | a fragment's first byte is its 13-bit offset times 8: a multiple of 8 within 16 bits |
| Ip.FragLast | sys/net/inet/ip.c:192 | a fragment's last byte is first + payload - 1 in 16-bit arithmetic |
| Ip.UpdateHoles | sys/net/inet/ip.c:195-238 | (corrected; as written: Ip.HoleLoopAsWritten) the loop computes HoleLoop, the walk with the corrected cut; after the hole loop no hole overlaps the fragment, no position is newly missing, every missing position outside the fragment stays missing (up to flast after a last fragment), and the list is unchanged exactly when no hole overlapped |
| Ip.CapKeepsClear | sys/net/inet/ip.c:236-237 | capping the INF hole inside the loop keeps the holes already passed clear of the fragment |
| Ip.ReasmInfo.constructor | sys/net/inet/ip.c:120-133 | a new reassembly starts with the single hole [0, 0xffff], no fragments and timeout IPFRAG_TIMEOUT_CLC |
| Ip.ReasmInfo.AddFragment | sys/net/inet/ip.c:195-246 | (corrected; as written: Ip.HoleLoopAsWritten) the hole list becomes HoleLoop of the old one; the fragment's bytes are no longer missing and nothing else is gained or lost; an overlapping fragment renews the timeout, is recorded, fixes datalen when last and the header length when first; a fragment overlapping no hole changes nothing; completion is an empty hole list |
| Ip.Copies | sys/net/inet/ip.c:229-232 | the fragment is recorded once per hole it overlaps |
| Ip.ReasmTable.constructor | sys/net/inet/ip.c:60 | no datagram is under reassembly at first |
| Ip.ReasmTable.GetReasmInfo | sys/net/inet/ip.c:109-135 | the search that advances along the list returns the first live entry for the datagram and changes nothing, or pushes a new entry (one hole [0, INF], fresh timeout) in front |
| Ip.RxFragment | sys/net/inet/ip.c:188-246 | (corrected; as written: Ip.HoleLoopAsWritten) after a fragment arrives its entry is on the reassembly list, none of its bytes is missing, and the datagram is complete exactly when no hole is left |
| Ip.SearchStepAsWritten | sys/net/inet/ip.c:112-119 | the search loop as written never moves its pointer |
| Ip.SearchAsWrittenSpins | sys/net/inet/ip.c:112-119 | with one entry for another datagram, the search as written comes back to where it started and never ends |
| Ip.PrepOff | sys/net/inet/ip.c:292 | ip_off is the offset in 8-byte units with the More Fragments bit, within 16 bits |
| Ip.OffRoundTrip | sys/net/inet/ip.c:191-292 | the receiver recovers an offset that is a multiple of 8 and the More Fragments flag from the ip_off prep_iphdr writes |
| Ip.Be16 | sys/net/inet/ip.c:290-292 | hton16 writes the high byte first |
| Ip.HeaderBytes | sys/net/inet/ip.c:285-298 | the header has version 4, length 5 words, TOS 0x80, TTL 64, the given protocol, big-endian length, id and offset, and the given addresses |
| Ip.PrepIpHdr | sys/net/inet/ip.c:285-301 | prep_iphdr lays out exactly HeaderBytes (version 4, 5 words, TOS 0x80, TTL 64, the protocol, big-endian length, id and offset word, the addresses) with, in the checksum field, the checksum of that header with the field zeroed; the whole header then checksums to 0 |
| Ip.Routing | sys/net/inet/ip.c:303-313 | ip_routing answers the destination or the default gateway, the gateway exactly when the destination is non-zero, off the local network and not the broadcast address |
| Ip.RoutingIdempotent | sys/net/inet/ip.c:303-313 | with the gateway on the local network, routing twice is routing once |
| Ip.TxNextHopAsWritten | sys/net/inet/ip.c:329-358 | as written ip_tx hands the unrouted destination to ARP |
| Ip.TxNextHopAsWrittenSkipsGateway | sys/net/inet/ip.c:329-331 | as written a destination off the local network (8.8.8.8 from 10.0.2.15/24) goes to ARP directly instead of to the gateway 10.0.2.2 |
| Ip.IpTx | sys/net/inet/ip.c:323-361 | (corrected; as written: Ip.TxNextHopAsWrittenSkipsGateway) ip_tx sends to the next hop ip_routing computes (the gateway when the destination is off the subnet); a payload that fits goes out as one datagram; otherwise fragment k carries up to 1480 payload bytes from byte k*1480, fits the MTU, has More Fragments set exactly when not last, and the fragments cover the payload |
| Ip.TxOffsetsEncodable | sys/net/inet/ip.c:345-359 | every fragment offset ip_tx produces is a multiple of 8, so the receiver reads it back exactly |
| Arp.FindLive | sys/net/inet/arp.c:66-119 | the table scan stops at the first live entry (same address, timeout above 0) for the address, or at the end when there is none |
| Arp.FindLiveIs | sys/net/inet/arp.c:69-70 | the first live entry for the address is the one the scan finds |
| Arp.ResolveSpec | sys/net/inet/arp.c:66-98 | arp_resolve answers FOUND with the entry's MAC exactly when a live entry has no pending frames, ADD_LIST (frame appended to that entry's pending list) when it has some, and NOT_FOUND when no live entry exists, in which case the slot next_register is overwritten with the address, the frame as its only pending frame and a fresh timeout, and next_register advances round the table |
| Arp.RegisterSpec | sys/net/inet/arp.c:100-128 | register_arptable leaves a live entry for the address with no pending frames and the permanent or normal timeout; an existing entry with pending frames takes the MAC and hands over its pending frames in order; a missing one takes slot next_register, which advances |
| Arp.RegisterThenResolve | sys/net/inet/arp.c:66-128 | right after registering an address, resolving it is FOUND and changes nothing, with the registered MAC unless the entry was already resolved |
| Arp.ResolveThenRegister | sys/net/inet/arp.c:66-128 | a frame left waiting by resolve is handed over, last, by the next registration of that address, which records the MAC |
| Arp.ArpTable.constructor | sys/net/inet/arp.c:26-42 | the table starts with every entry empty (timeout 0, no pending frames) and next_register 0 |
| Arp.ArpTable.Resolve | sys/net/inet/arp.c:66-98 | the loop-based arp_resolve gives the result, table and next_register of ResolveSpec |
| Arp.ArpTable.Register | sys/net/inet/arp.c:100-128 | the loop-based register_arptable gives the frames sent, table and next_register of RegisterSpec |
| Arp.ArpTable.Tick | sys/net/inet/arp.c:194-217 | arp_10sec ages every entry and sends a request for each entry still live with pending frames, in table order |
| Arp.Aged | sys/net/inet/arp.c:197-209 | aging keeps the MAC and address, counts a non-permanent positive timeout down by one, and drops the pending frames of an entry that reaches 0 |
| Arp.Requests | sys/net/inet/arp.c:210-213 | at most one request is sent per entry |
| Arp.AgingCountsDown | sys/net/inet/arp.c:197-209 | after n ticks a non-permanent entry's timeout is max(timeout - n, 0), its pending frames survive until it expires and are gone once it has; a permanent entry never changes |
| Arp.Be16At | sys/net/inet/arp.c:133-136 | ntoh16 of two bytes gives a 16-bit value |
| Arp.Be16 | sys/net/inet/arp.c:181-185 | hton16 writes a value that ntoh16 reads back |
| Arp.Parse | sys/net/inet/arp.c:131 | the parsed packet has 6-byte hardware and 4-byte protocol addresses |
| Arp.Serialize | sys/net/inet/arp.c:156-189 | a serialized packet is 28 bytes long and parses back to itself |
| Arp.Request | sys/net/inet/arp.c:173-192 | send_arprequest builds an encodable REQUEST for the destination address |
| Arp.Reply | sys/net/inet/arp.c:156-160 | the reply to a request is a REPLY addressed to the requester, from this host's MAC and IP |
| Arp.OwnPacketsAccepted | sys/net/inet/arp.c:132-189 | the requests this host sends, and its replies to accepted requests, pass arp_rx's validation |
| Arp.Rx | sys/net/inet/arp.c:130-171 | arp_rx drops packets that are short or have the wrong hardware type, protocol, address lengths or operation, and requests for another host; a reply, or a request for this host, registers the sender, and a request is answered with a reply |
| CStrings.ComponentEnd | sys/kern/fs.c:63 | the name scan stops at the first NUL or '/' at or after i |
| CStrings.StrEnd | sys/kern/fs.c:19 | a C string ends at the first NUL at or after i |
| CStrings.Mismatch | sys/kern/fs.c:19-21 | strcmp's loop stops at the first position where s1 has a NUL or the two differ |
| CStrings.Strcmp | sys/kern/fs.c:18-23 | strcmp gives 0 exactly when the two C strings are equal, and otherwise the difference of the signed chars at the first mismatch |
| CStrings.MismatchIs | sys/kern/fs.c:19-21 | a position with a NUL or a difference and only equal non-NUL bytes before it is where strcmp's loop stops |
| CStrings.DentMatchPlainName | sys/fs/fat32/fat32.c:246-253 | for a name without '/', strcmp_dent's match is plain equality of the path's first component and the name |
| CStrings.StrcmpDent | sys/fs/fat32/fat32.c:246-253 | strcmp_dent (also sys/fs/v6fs/v6fs.c:192-199) gives 0 exactly when the path's first component matches the name: equal, or equal up to a '/' in both |
| Fs.NameHits | sys/kern/fs.c:27-31 | hit k says whether the k-th registered type's name equals the requested name as C strings |
| Fs.FindFs | sys/kern/fs.c:27-34 | the type found, if any, is a registered one |
| Fs.FindFsFirst | sys/kern/fs.c:27-34 | fs_mountroot picks the first registered type with that name, and finds none exactly when no type has it |
| Fs.SkipSlashes | sys/kern/fs.c:57 | the slash skip stops at the first non-'/' byte and passes only slashes |
| Fs.Starts | sys/kern/fs.c:56-66 | the walk visits the non-empty components of the path, each starting at a non-NUL, non-'/' byte just after a '/' |
| Fs.NoComponentsTrailing | sys/kern/fs.c:57-59 | when only slashes are left the path ends in '/' and no component remains |
| Fs.LastComponent | sys/kern/fs.c:63-65 | a component that runs into the NUL is the last one, and the path does not end in '/' |
| Fs.Vfs.constructor | sys/kern/fs.c:5-11 | no file-system type is registered, no file system mounted and there is no root directory |
| Fs.Vfs.FsinfoAdd | sys/kern/fs.c:14-16 | fsinfo_add appends the type to the table |
| Fs.Vfs.FindFsIndex | sys/kern/fs.c:26-31 | the search loop gives the index of the first type with that name, or the table size when there is none |
| Fs.Vfs.MountRoot | sys/kern/fs.c:25-45 | fs_mountroot gives -1 and changes nothing for an unknown name or a failed mount; when the mounted file system has no root it releases the mount slot again, leaves no root directory and gives -1; otherwise the file system takes the next mount slot, its root becomes the root directory and the result is 0 |
| Fs.Vfs.SkipSlashRun | sys/kern/fs.c:57 | the slash loop ends where SkipSlashes says |
| Fs.Vfs.SkipName | sys/kern/fs.c:63 | the name loop ends at the end of the component |
| Fs.Vfs.NameToI | sys/kern/fs.c:48-67 | fs_nametoi gives NULL without a root directory, for a NULL or relative path and for a path ending in '/'; otherwise it looks up the path's non-empty components one after another from the root, failing as soon as one lookup fails |
| Fat32.ClusterClasses | sys/fs/fat32/fat32.c:122-127 | every 28-bit FAT entry is exactly one of free (0), reserved (1), active (2..0x0FFFFFF6), bad (0x0FFFFFF7) or end-of-chain (0x0FFFFFF8..0x0FFFFFFF); the classes do not overlap |
| Fat32.DirCluster | sys/fs/fat32/fat32.c:124 | a directory entry's first cluster is a 32-bit value whose high 16 bits are DIR_FstClusHI and whose low 16 bits are DIR_FstClusLO |
| Fat32.RootSectors | sys/fs/fat32/fat32.c:170 | the root-directory sector count is the fewest whole sectors that hold BPB_RootEntCnt 32-byte entries |
| Fat32.Mount | sys/fs/fat32/fat32.c:158-180 | fat32_mount divides by zero exactly when BytsPerSec or SecPerClus is 0 (before validation), mounts exactly when the boot signature is 0xAA55, sectors are 512 bytes and the data region holds at least 65526 clusters, and then yields the computed layout |
| Fat32.MountLayout | sys/fs/fat32/fat32.c:167-172 | on a mounted volume whose regions fit, the FATs start after the reserved sectors, the root directory follows the FATs and holds every root entry, and the data region ends at the end of the volume |
| Fat32.MountAcceptsOverlongRegions | sys/fs/fat32/fat32.c:172-174 | a boot sector whose fixed regions overrun the volume still mounts, because the 32-bit data-sector count wraps to nearly 2^32 |
| Fat32.ClusterBytes | sys/fs/fat32/fat32.c:218 | a cluster holds at least one 512-byte block |
| Fat32.Le32 | sys/fs/fat32/fat32.c:199 | a 32-bit little-endian field read from a block is an unsigned 32-bit value |
| Fat32.LeBytes | sys/fs/fat32/fat32.c:212 | the four bytes written for a 32-bit value read back as that value |
| Fat32.SlotOf | sys/fs/fat32/fat32.c:195-196 | a cluster's FAT slot is a 4-aligned offset that lies wholly inside one 512-byte block |
| Fat32.SlotsDistinct | sys/fs/fat32/fat32.c:193-196 | two different clusters below 2^30 never share a FAT slot |
| Fat32.FatentRead | sys/fs/fat32/fat32.c:193-202 | fatent_read yields the cluster's FAT entry with the top 4 bits masked off, a value below 2^28 |
| Fat32.MergedEntry | sys/fs/fat32/fat32.c:211 | the stored slot keeps the old slot's top 4 bits and takes the value's low 28 bits |
| Fat32.Patched | sys/fs/fat32/fat32.c:210-212 | writing the entry back leaves the block's length unchanged |
| Fat32.FatentWrite | sys/fs/fat32/fat32.c:204-215 | fatent_write on the slot's block stores and returns the merged entry and changes no other byte of the block |
| Fat32.AfterWrite | sys/fs/fat32/fat32.c:204-215 | the disk after fatent_write is still a disk of 512-byte blocks |
| Fat32.PatchedReads | sys/fs/fat32/fat32.c:210-212 | the patched slot reads back as the merged entry and every other aligned slot of the block reads as before |
| Fat32.WriteThenRead | sys/fs/fat32/fat32.c:193-215 | after fatent_write(index, value), fatent_read(index) is the value's low 28 bits and fatent_read of every other cluster below 2^30 is unchanged |
| Fat32.ClusterToSector | sys/fs/fat32/fat32.c:255-257 | cluster_to_sector yields a 32-bit sector number |
| Fat32.ClusterSectors | sys/fs/fat32/fat32.c:255-257 | on a volume whose regions fit, cluster c (2 <= c < cluster count + 2) starts at datastart + (c-2)*SecPerClus, and different clusters get disjoint runs of SecPerClus sectors |
| Fat32.DataRegionEnds | sys/fs/fat32/fat32.c:171-172 | when the regions fit, datastart + datasectors is the volume's total sector count |
| Fat32.SectorInRegion | sys/fs/fat32/fat32.c:255-257 | every sector of a valid cluster lies inside the data region |
| Fat32.NameSum | sys/fs/fat32/fat32.c:263-264 | the shift-and-add fold over the name is a byte |
| Fat32.ChkSum | sys/fs/fat32/fat32.c:259-266 | the long-name checksum of Microsoft's FAT specification (rotate right by one bit, then add the next byte) is a byte |
| Fat32.StepRotates | sys/fs/fat32/fat32.c:264 | one step `(sum >> 1) + (sum << 7) + b`, truncated to u8, is rotate-right-by-one then add b |
| Fat32.NameSumIsChkSum | sys/fs/fat32/fat32.c:259-266 | create_sum's fold equals the specification's rotate-and-add checksum for every name |
| Fat32.CreateSum | sys/fs/fat32/fat32.c:259-266 | create_sum over the 11 name bytes returns the long-name checksum |
| Fat32.Part | sys/fs/fat32/fat32.c:271-277 | one part of the printable short name is no longer than the stored part and has no space and no 0x05 byte (0x05 becomes 0xE5) |
| Fat32.Sfn | sys/fs/fat32/fat32.c:268-290 | the printable short name has at most 12 bytes and no space or 0x05 byte |
| Fat32.Padded | sys/fs/fat32/fat32.c:278 | a name part padded to its field width keeps its bytes and is followed only by spaces |
| Fat32.ShortName | sys/fs/fat32/fat32.c:268-290 | the directory form of a base and extension is 11 bytes long |
| Fat32.PartOfPadded | sys/fs/fat32/fat32.c:271-277 | reading a part back from its space-padded field gives the part |
| Fat32.SfnOfShortName | sys/fs/fat32/fat32.c:268-290 | get_sfn inverts the 11-byte directory form: "BASE.EXT", or "BASE" when the extension is blank |
| Fat32.PartUpTo | sys/fs/fat32/fat32.c:271-277 | the copied part ends at the first space and holds the mapped bytes before it |
| Fat32.CopyPart | sys/fs/fat32/fat32.c:271-286 | each copy loop of get_sfn appends exactly the part's mapped bytes to the buffer and keeps what it already held |
| Fat32.GetSfn | sys/fs/fat32/fat32.c:268-290 | get_sfn leaves the printable short name in its 13-byte buffer followed by a NUL |
| Fat32.Nth | sys/fs/fat32/fat32.c:220 | following FAT links from a 32-bit cluster always gives a 32-bit cluster |
| Fat32.CopiedBytes | sys/fs/fat32/fat32.c:407-410 | the bytes memcpy takes from a sector of the file's k-th cluster are the file's bytes at those positions |
| Fat32.WalkClusterChain | sys/fs/fat32/fat32.c:217-225 | walk_cluster_chain returns the chain's cluster for the offset when every link on the way is active, and BAD_CLUSTER otherwise |
| Fat32.ReadLen | sys/fs/fat32/fat32.c:384-392 | the intended read length is 0 at or past the end of the file, never reaches past the end, and is the full count whenever the file has that many bytes left |
| Fat32.ReadLenAgrees | sys/fs/fat32/fat32.c:384-385 | when count + offset does not wrap, the tail/remain computation gives the intended length |
| Fat32.ReadAsWrittenOverruns | sys/fs/fat32/fat32.c:384-385 | with offset 100 and count 0xFFFFFFF0 on a 1000-byte file, the written length wraps to 0xFFFFFFF0 instead of 900 |
| Fat32.ReadCluster | sys/fs/fat32/fat32.c:402-414 | the sector loop copies min(remaining, rest of the cluster) bytes, each the file's byte at its position |
| Fat32.ReadChain | sys/fs/fat32/fat32.c:398-418 | the cluster loop copies at most the wanted bytes, each the file's byte at its position, and all of them when every cluster they span is active |
| Fat32.FileBytesAppend | sys/fs/fat32/fat32.c:410-412 | bytes read at the advanced position continue the bytes already read |
| Fat32.FatFile.constructor | sys/fs/fat32/fat32.c:380-385 | a freshly opened file starts at offset 0 with the vnode's size and first cluster |
| Fat32.FatFile.Lseek | sys/fs/fat32/fat32.c:428-446 | SEEK_SET sets the offset, SEEK_CUR moves it, SEEK_END puts it at the file size, each returning 0; any other whence returns -1 and keeps the offset |
| Fat32.FatFile.Read | sys/fs/fat32/fat32.c:380-426 | fat32_read returns at most the intended length, each byte the file's byte at its position, advances the offset by the count returned, and returns the whole length when the chain is active throughout |
| V6fs.Mount | sys/fs/v6fs/v6fs.c:88-110 | v6fs_mount fails exactly when the superblock read from block 1 has no inode or storage blocks or a free count above 100; a mounted superblock is that block's contents |
| V6fs.InodeSlot | sys/fs/v6fs/v6fs.c:120 | an inode's slot is one of the 16 records of its block |
| V6fs.InodePlacement | sys/fs/v6fs/v6fs.c:112-120 | inodes are numbered consecutively from 1 with 16 to a block: block*16 + slot is n + 31, no inode lies in the boot block or the superblock, and the root inode 1 is the first record of block 2 |
| V6fs.InodePlacementInjective | sys/fs/v6fs/v6fs.c:119-120 | different inodes occupy different on-disk records |
| V6fs.InodeSize | sys/fs/v6fs/v6fs.c:133 | the 24-bit file size has size0 as its high byte and size1 as its low 16 bits |
| V6fs.InodeAt | sys/fs/v6fs/v6fs.c:116-136 | the decoded inode carries its number, a 16-bit mode, a 24-bit size and eight 16-bit block addresses |
| V6fs.GetInode | sys/fs/v6fs/v6fs.c:116-136 | v6fs_getinode's copy loop produces exactly the inode decoded from its on-disk record |
| V6fs.IndirIndex | sys/fs/v6fs/v6fs.c:145 | logical block vno lies in the 256-block range of indirect block vno/256 |
| V6fs.EntryIndex | sys/fs/v6fs/v6fs.c:149 | vno is 256 * (its indirect block) + (its entry), with the entry below 256 |
| V6fs.VtopRef | sys/fs/v6fs/v6fs.c:139-165 | the intended mapping of a logical block (direct, indirect, or double-indirect with entry vno%256) always names an address slot and entries inside a 256-entry block |
| V6fs.VtopRefInjective | sys/fs/v6fs/v6fs.c:139-165 | with the intended mapping, distinct logical blocks of a file have distinct places |
| V6fs.VtopRefAgrees | sys/fs/v6fs/v6fs.c:142-151 | for small files and the first 7*256 blocks of a large file, the written mapping is the intended one |
| V6fs.VtopRefAsWrittenShares | sys/fs/v6fs/v6fs.c:152-161 | as written, every logical block from 1792 on goes through entry 0 of the double-indirect block and ignores vno%256, so blocks 1792 and 1793 map to the same place |
| V6fs.Resolve | sys/fs/v6fs/v6fs.c:147-161 | following a block reference yields a 16-bit block number |
| V6fs.BlknoVtop | sys/fs/v6fs/v6fs.c:139-165 | (corrected; as written: V6fs.VtopRefAsWrittenShares) blkno_vtop yields a 16-bit physical block number for every logical block the file covers |
| V6fs.BlknoVtopCases | sys/fs/v6fs/v6fs.c:139-165 | (corrected; as written: V6fs.VtopRefAsWrittenShares) a small file's block is blkno[vno]; a large file's first 7*256 blocks are entry vno%256 of indirect block blkno[vno/256]; later blocks go through the double-indirect block at blkno[7] |
| V6fs.ReadCount | sys/fs/v6fs/v6fs.c:168-169 | a read copies at most count bytes, never past the end of the file, exactly min(count, size - offset) when offset+count does not wrap, and nothing beyond the end |
| V6fs.ReadResultAsWrittenAgrees | sys/fs/v6fs/v6fs.c:168-189 | inside the file and without wrap the returned tail-offset is the number of bytes copied; at offset 600 of a 500-byte file it is -100 although nothing is copied |
| V6fs.InodeRead | sys/fs/v6fs/v6fs.c:167-190 | (corrected; as written: V6fs.ReadResultAsWrittenAgrees) v6fs_inode_read returns the number of bytes copied, and each copied byte is the file's byte at its position, read through blkno_vtop |
| V6fs.DentBlock | sys/fs/v6fs/v6fs.c:211-217 | the block fetched for a directory entry is a whole 512-byte block |
| V6fs.DentCount | sys/fs/v6fs/v6fs.c:211 | the scan visits entry k exactly when 16*k is below the directory size |
| V6fs.DentHits | sys/fs/v6fs/v6fs.c:211-228 | there is one hit flag per 16-byte directory entry |
| V6fs.FindDent | sys/fs/v6fs/v6fs.c:211-228 | a found entry lies inside the directory |
| V6fs.FindDentFirst | sys/fs/v6fs/v6fs.c:211-228 | the entry found is in use and matches the path's first component, no earlier entry does, and when none is found no entry matches |
| V6fs.DentInBlock | sys/fs/v6fs/v6fs.c:219 | a 16-byte entry never straddles a block boundary |
| V6fs.NextDentSameBlock | sys/fs/v6fs/v6fs.c:212-219 | the next entry lies in the block already fetched unless it starts a new block |
| V6fs.HitInBlock | sys/fs/v6fs/v6fs.c:219-224 | an entry's hit flag can be read from the block that holds it |
| V6fs.CheckDent | sys/fs/v6fs/v6fs.c:219-228 | one scan step reads the entry's inode number, and reports a hit exactly for DENTOP_GET on an in-use entry whose name matches |
| V6fs.ScanDir | sys/fs/v6fs/v6fs.c:206-233 | the scan returns 0 for any other operation; for DENTOP_GET it returns 0 exactly when no entry matches, and otherwise the inode number of the first matching entry |
| V6fs.Opdent | sys/fs/v6fs/v6fs.c:201-249 | (corrected; as written: V6fs.VtopRefAsWrittenShares) v6fs_inode_opdent returns NULL for other operations, for an unallocated or non-directory inode and when nothing matches; otherwise it returns the inode of the first in-use entry whose name matches |
| Vga.EntryColor | sys/kern/vga.c:16 | for 4-bit colours the attribute byte holds the foreground in its low nibble and the background in its high nibble |
| Vga.Entry | sys/kern/vga.c:17 | a screen cell holds the character in its low byte and the colour attribute in its high byte |
| Vga.EntryAsWrittenAttribute | sys/kern/vga.c:35-37 | with the character passed as a signed char, ASCII characters are drawn as intended, but any byte of 0x80 or more sign-extends over the colour and is drawn with attribute 0xFF (0xDB in white on blue becomes 0xFFDB, not 0x1FDB) |
| Vga.BlankScreen | sys/kern/vga.c:24-28 | a cleared screen has all 80x25 cells set to a space in the current colour |
| Vga.Index | sys/kern/vga.c:36 | the cell at column x of row y is y*80+x, inside the 80x25 buffer |
| Vga.Row | sys/kern/vga.c:40-45 | a row is 80 cells |
| Vga.Scrolled | sys/kern/vga.c:39-46 | the scrolled screen keeps the buffer's 80x25 size |
| Vga.ScrolledRows | sys/kern/vga.c:39-46 | scrolling by n moves row y+n to row y for the top 25-n rows and blanks the bottom n rows in the current colour |
| Vga.TabStop | sys/kern/vga.c:70 | a tab moves to the next multiple of 8 strictly after the column, at most 8 columns on |
| Vga.Byte | sys/kern/vga.c:59 | the byte sent for a character is its value modulo 256 |
| Vga.TtyBytes | sys/kern/vga.c:53-61 | in terminal mode DEL is sent as backspace, space, backspace; CR as a newline; any other character as its low byte |
| Vga.NewLine | sys/kern/vga.c:78-85 | a line break puts the cursor at column 0, keeps it on the screen, and leaves the colour, mode and terminal output alone |
| Vga.Put | sys/kern/vga.c:52-88 | (corrected; as written: Vga.EntryAsWrittenAttribute) putchar sends the terminal bytes in terminal mode and leaves the screen; otherwise newline goes to column 0 of the next row (scrolling on the last), tab to the next tab stop, and any other character is drawn at the cursor in the current colour, the cursor advancing and wrapping; the cursor stays on the screen and moves down at most one row |
| Vga.PutAll | sys/kern/vga.c:90-93 | putting a string keeps the cursor on the screen |
| Vga.NumChar | sys/kern/vga.c:105-107 | each digit character is a non-NUL ASCII byte |
| Vga.DigitValue | sys/kern/vga.c:105-107 | reading a digit character back gives the digit it stands for |
| Vga.Digits | sys/kern/vga.c:116-121 | every number prints as at least one digit |
| Vga.DigitsValue | sys/kern/vga.c:116-121 | the printed digits read back in the base as the number printed |
| Vga.DigitsWellFormed | sys/kern/vga.c:116-121 | every printed digit is below the base, and there is no leading zero except for 0 itself |
| Vga.DigitsLength | sys/kern/vga.c:116-119 | a number below base^k prints as at most k digits |
| Vga.DigitsFitBuffer | sys/kern/vga.c:104 | in base 5 and up (the bases printf uses are 10 and 16), a 32-bit value has fewer than 16 digits, so the digits and the leading NUL fit the 16-byte buffer |
| Vga.SignedDigits | sys/kern/vga.c:109-122 | a negative value prints as '-' followed by the digits of its magnitude, and a non-negative one as its digits |
| Vga.CRem | sys/kern/vga.c:117 | C's remainder equals the mathematical one for a non-negative dividend and lies in (-b, 0] for a negative one |
| Vga.SignedDigitIndexAsWrittenRange | sys/kern/vga.c:112-117 | the numchar index is a valid digit for every int except INT_MIN, where -val wraps back to INT_MIN and the index is -8 in base 10 |
| Vga.Console.constructor | sys/kern/vga.c:19-29 | a new console has its cursor at the top left, white on blue, every cell blank and terminal mode off |
| Vga.Console.Init | sys/kern/vga.c:19-29 | vga_init puts the cursor at the top left, sets white on blue and blanks all 80x25 cells |
| Vga.Console.SetColor | sys/kern/vga.c:31-33 | vga_setcolor makes the colour attribute foreground fg on background bg |
| Vga.Console.SwitchToChardev | sys/kern/vga.c:48-50 | switch_to_chardev sends all later output to the terminal device |
| Vga.Console.Scroll | sys/kern/vga.c:39-46 | scroll leaves the buffer as the scrolled screen: rows move up by `lines` and the bottom rows are blank |
| Vga.Console.MoveRow | sys/kern/vga.c:40-42 | one pass of the copy loop gives row y the cells of row y+lines and changes no other cell |
| Vga.Console.ClearRow | sys/kern/vga.c:43-45 | one pass of the blanking loop makes row y blank and changes no other cell |
| Vga.Console.Putchar | sys/kern/vga.c:52-88 | (corrected; as written: Vga.EntryAsWrittenAttribute) putchar changes the console exactly as Put says and returns c |
| Vga.Console.Putstr | sys/kern/vga.c:90-93 | putstr puts each byte of the C string in turn, read as a signed char, and returns 0 |
| Vga.Console.Puts | sys/kern/vga.c:95-101 | puts puts the string and then a newline, and returns 0 |
| Vga.Console.EmitReversed | sys/kern/vga.c:120-121 | the output loop puts the collected digits from the last one back to the NUL in front of them |
| Vga.Console.PrintDigits | sys/kern/vga.c:116-121 | the digit loops put exactly the digits of the value, most significant first |
| Vga.Console.PrintNumUnsigned | sys/kern/vga.c:124-133 | print_num_unsigned puts the base digits of the 32-bit value, most significant first |
| Vga.Console.PrintNumSigned | sys/kern/vga.c:109-122 | (corrected; as written: Vga.SignedDigitIndexAsWrittenRange) print_num_signed puts '-' and the digits of the magnitude for negative values, so INT_MIN prints as -2147483648 |
| Vga.CollectDigits | sys/kern/vga.c:111-119 | the do-while loop leaves a NUL followed by the digits, least significant first |
| Vga.DigitsReversed | sys/kern/vga.c:116-119 | the loop always produces at least one digit |
| Vga.DigitsReversedNoNul | sys/kern/vga.c:120 | no digit is NUL, so only the leading NUL stops the output loop |
| Vga.DigitsReversedIsReverse | sys/kern/vga.c:116-121 | the digits the loop collects are the printed digits in reverse |
| Vga.PutAllAppend | sys/kern/vga.c:90-93 | putting a concatenation puts the first part, then the second |
| Pci.ConfigAddressFields | kernel/pci.c:13-17 | the configuration address has the enable bit 31 set, bits 24-30 clear, and the bus, device, function and dword-aligned register fields read back as given |
| Pci.SameDword | kernel/pci.c:14 | two register offsets in the same dword select the same configuration address |
| Pci.Lane16Shift | kernel/pci.c:23-26 | the 16-bit register is the dword shifted right by 8 bits per byte of (offset & 2), masked to 16 bits |
| Pci.Lane8Shift | kernel/pci.c:32-35 | the 8-bit register is the dword shifted right by 8 bits per byte of (offset & 3), masked to 8 bits |
| Pci.Read16IsTwoBytes | kernel/pci.c:23-35 | a 16-bit register at an even offset is the byte at the offset plus the next byte shifted left by 8: the 16-bit and 8-bit reads agree |
| Pci.LanesCombine | kernel/pci.c:23-35 | the 16-bit lane at an even offset is its two byte lanes, low byte first |
| Pci.Write32 | kernel/pci.c:41-45 | _pci_config_write32 sends the data to the configuration address of the register |
| Pci.MergeAsWrittenIsZero | kernel/pci.c:51-67 | as written, the second `&=` clears every bit the first one kept, so write16 and write8 always write 0 (0x1234 at offset 4 over 0xFFFFFFFF sends 0 instead of 0xFFFF1234) |
| Pci.Merge16RoundTrip | kernel/pci.c:51-56 | the intended merge reads back as the data in the register's 16-bit lane and the old value in the other lane |
| Pci.Merge8RoundTrip | kernel/pci.c:62-67 | the intended merge reads back as the data in the register's byte and the old bytes elsewhere |
| Pci.Write16 | kernel/pci.c:51-56 | write16 (corrected) writes the register's dword, carrying the data in the register's lane and the value read before in the other lane |
| Pci.Write8 | kernel/pci.c:62-67 | write8 (corrected) writes the register's dword, carrying the data in the register's byte and the bytes read before in the other three |
| Pci.PortConfig | kernel/pci.c:23-35 | the enumeration's reads are the port reads of the 16-bit and 8-bit registers for every valid bus, device and function |
| Pci.MultiFunctionBit | kernel/pci.c:104 | the multi-function test `hdrtype & 0x80` holds exactly when the header type is 0x80 or more |
| Pci.DevAt | kernel/pci.c:83-96 | pci_dev_add's record carries the bus, device and function numbers it was given |
| Pci.EnumerationOnlyListed | kernel/pci.c:98-112 | every entry of the device list is the record of a function the enumeration rule admits |
| Pci.EnumerationRule | kernel/pci.c:98-112 | a function is in the device list exactly when function 0 of its slot has a vendor ID other than 0xFFFF and it is function 0, or the slot is multi-function and its own vendor ID is not 0xFFFF |
| Pci.IdHits | kernel/pci.c:77 | a device is a hit exactly when both its vendor ID and device ID match |
| Pci.FindDevice | kernel/pci.c:73-81 | a device found lies in the list |
| Pci.FindDeviceFirst | kernel/pci.c:73-81 | the device found is the first in list order with both IDs, and none is found only when no device has both |
| Pci.PciBus.constructor | kernel/pci.c:11 | the device list starts empty |
| Pci.PciBus.DevAdd | kernel/pci.c:83-96 | pci_dev_add appends the function's record to the end of the list and changes nothing else in it |
| Pci.PciBus.ProbeSlot | kernel/pci.c:102-109 | probing a slot appends exactly the records the enumeration rule admits for it, function 0 first |
| Pci.PciBus.ProbeFunctions | kernel/pci.c:105-107 | the function loop appends the present functions 1..7 in order |
| Pci.PciBus.Enumerate | kernel/pci.c:98-116 | pci_enumerate (called by pci_init) leaves exactly the list of all admitted functions, bus by bus and slot by slot |
| Pci.PciBus.SearchDevice | kernel/pci.c:73-81 | pci_search_device returns the first device in the list with both IDs, and NULL when there is none |
| Pts.PairInvolution | sys/dev/pts/pts.c:7 | PTS_PAIR swaps the two minors of a pair: pairing twice gives the minor back, never the minor itself, keeps valid minors valid and stays in the same pair (0&1, 2&3, ...) |
| Pts.CheckMinor | sys/dev/pts/pts.c:50-55 | pts_check_minor returns 0 exactly for minors 0..31 and -1 otherwise |
| Pts.FreePairs | sys/dev/pts/pts.c:115-116 | pair k is free exactly when its even minor 2k is not in use |
| Pts.FirstFreePairIsFirst | sys/dev/pts/pts.c:113-123 | the search gives the smallest even minor not in use, and -1 exactly when every even minor is in use |
| Pts.PtsTable.constructor | sys/dev/pts/pts.c:33-48 | pts_init leaves every minor unused and without a receive buffer |
| Pts.PtsTable.MarkPair | sys/dev/pts/pts.c:67-68 | setting is_used of a minor sets it on its partner too and on no other minor |
| Pts.PtsTable.FindFree | sys/dev/pts/pts.c:115-122 | the loop returns the first unused even minor, or -1 |
| Pts.PtsTable.GetAsWritten | sys/dev/pts/pts.c:113-123 | pts_get as written returns the first free even minor and leaves the table unchanged |
| Pts.PtsTable.Get | sys/dev/pts/pts.c:113-123 | pts_get (corrected) returns the first free even minor and marks both minors of that pair used; with no free pair it returns -1 and changes nothing |
| Pts.PtsTable.Close | sys/dev/pts/pts.c:75-85 | pts_close of a valid minor marks it and its partner unused and keeps the buffers; an invalid minor gives -1 and changes nothing |
| Pts.PtsTable.NewBuf | sys/dev/pts/pts.c:62 | a new receive buffer is empty and holds PTS_BUFSIZE (128) bytes |
| Pts.PtsTable.EnsureBuf | sys/dev/pts/pts.c:61-65 | a minor without a receive buffer gets a fresh empty one; an existing buffer is kept with its contents |
| Pts.PtsTable.Open | sys/dev/pts/pts.c:57-73 | pts_open fails with -1 unless the minor is valid and already in use; otherwise both minors of the pair get receive buffers (existing ones kept), are marked used, and the result is 0 |
| Pts.PtsTable.Write | sys/dev/pts/pts.c:96-103 | pts_write on a usable minor appends the first min(count, free room) bytes of src to its partner's receive buffer and returns that count, leaving every other buffer alone; an invalid or unused minor gives -1 |
| Pts.PtsTable.Read | sys/dev/pts/pts.c:87-94 | pts_read on a usable minor moves the oldest min(count, buffered) bytes of its own buffer into dest in order and returns that count, leaving every other buffer alone; an invalid or unused minor gives -1 and leaves dest |
| Pts.FirstFreePairEmpty | sys/dev/pts/pts.c:113-123 | on a fresh table pts_get finds minors 0 and 1 |
| Pts.OpenAfterGetAsWritten | sys/dev/pts/pts.c:57-59 | with pts_get as written, the minor it hands out on a fresh table (0) is not in use, so pts_open of it returns -1 |
| Pts.GetAndOpen | sys/dev/pts/pts.c:57-123 | with pts_get marking its pair, the minor it hands out on a fresh table opens, and both minors get buffers, the partner's empty |
| Pts.PairLoopback | sys/dev/pts/pts.c:87-123 | bytes written on minor 0 (fewer than a buffer holds) are read back unchanged on minor 1 |
| Pts.WriteAll | sys/dev/pts/pts.c:96-103 | writing fewer bytes than a buffer holds into an empty partner buffer stores them all |
| Pts.ReadAll | sys/dev/pts/pts.c:87-94 | reading as many bytes as a buffer holds returns its whole contents |
| Tcp.Dist | sys/net/inet/tcp.c:246-280 | the forward distance from a to b on the 2^32 sequence-number circle is a 32-bit value, (b - a) mod 2^32 |
| Tcp.WindowTestsAreArcs | sys/net/inet/tcp.c:246-280 | LE_LT, LT_LE, LE_LE and LT_LT hold exactly when b lies in the arc [a, c), (a, c], [a, c] or (a, c) going forward from a, so they are correct across the 2^32 wrap |
| Tcp.EmptyWindow | sys/net/inet/tcp.c:246-280 | with a == c only LE_LE can hold, and only for b == a |
| Tcp.Len | sys/net/inet/tcp.c:55 | arrival_len is the number of sequence numbers from start to end inclusive, in 32-bit arithmetic |
| Tcp.Hull | sys/net/inet/tcp.c:571-580 | the hull of two ranges, seen from the next expected number, starts no later and ends no earlier than either |
| Tcp.HullIsUnion | sys/net/inet/tcp.c:571-580 | two touching ranges cover exactly the sequence numbers of their hull |
| Tcp.HullAvoids | sys/net/inet/tcp.c:571-580 | a non-empty range apart from two touching ranges stays apart from their hull |
| Tcp.Merge | sys/net/inet/tcp.c:561-587 | the intended merge keeps only stored ranges, in order, and keeps 32-bit ranges 32-bit |
| Tcp.MergeCovers | sys/net/inet/tcp.c:561-587 | the intended merge loses and invents no sequence number: the new range plus the stored ranges cover exactly what the merged range plus the kept ranges cover |
| Tcp.MergeAvoids | sys/net/inet/tcp.c:561-587 | a range apart from the new range and from every stored one stays apart from the merged range |
| Tcp.MergeKeepsApart | sys/net/inet/tcp.c:561-587 | if the stored ranges are non-empty and pairwise apart, they stay pairwise apart after the merge, merged range in front |
| Tcp.MergeAsWritten | sys/net/inet/tcp.c:568-585 | the written merge keeps only stored ranges, in order |
| Tcp.MergeAsWrittenDropsData | sys/net/inet/tcp.c:571-580 | with 10..19 stored, 30..39 arriving and 0 expected next, the written tests absorb the older range and leave the single range 30..19, so sequence number 15 is lost although it arrived |
| Tcp.FirstStartingAt | sys/net/inet/tcp.c:597-599 | the handover search stops at the first stored range starting at the given number, or at the end of the list when none does |
| Tcp.HandedOver | sys/net/inet/tcp.c:595-609 | handover moves the first range starting at recv_next_seq to the back of the receive list, advances recv_next_seq past its end, shrinks the window by its length and returns that length; without such a range it returns 0 and changes nothing |
| Tcp.HandOverFront | sys/net/inet/tcp.c:595-609 | a range at the front of the list that starts at the next expected number is the one handed over |
| Tcp.TcpCb.ZeroData | sys/net/inet/tcp.c:298 | the memset clears the sequence numbers, the window, the MSS, both range lists and the accept queue |
| Tcp.TcpCb.Init | sys/net/inet/tcp.c:296-316 | tcpcb_init leaves a CLOSED block with no FIN requested, the initial RTT, the default buffer sizes, empty lists and every other field cleared, keeping only errno |
| Tcp.TcpCb.Reset | sys/net/inet/tcp.c:323-345 | tcpcb_reset drops the accept queue and both range lists; a block the user closed is released as it was, any other is reinitialised |
| Tcp.TcpCb.Listen | sys/net/inet/tcp.c:1189-1208 | tcp_sock_listen may change only the state, the open type and the accept queue; it returns ECONNEXIST and changes nothing unless the block is CLOSED or LISTEN; otherwise the accept queue is emptied and sized to max(backlog, 0), the block becomes LISTEN with passive open, and the result is 0 |
| Tcp.TcpCb.Close | sys/net/inet/tcp.c:1328-1372 | tcp_sock_close marks the block user-closed; CLOSED is reset with ECONNNOTEXIST; LISTEN and SYN_SENT are reset; SYN_RCVD and ESTABLISHED request a FIN and go to FIN_WAIT_1; CLOSE_WAIT requests a FIN; closing states give ECONNCLOSING and keep their state; in every state but CLOSED, LISTEN and SYN_SENT no field other than the state, myfin_state and the user-closed flag changes |
| Tcp.TcpCb.Handover | sys/net/inet/tcp.c:595-609 | tcp_arrival_handover changes the receive side exactly as HandedOver says and returns its length |
| Tcp.TcpCb.ArrivalAdd | sys/net/inet/tcp.c:561-593 | tcp_arrival_add (with the intended merge) puts the merged range in front of the kept ranges; when the new range starts at recv_next_seq the merged range starts there too and is handed over at once, otherwise nothing else changes |
| Tcp.MergeStep | sys/net/inet/tcp.c:568-585 | one more stored range either grows the current range or joins the kept ones |
| Tcp.MergeLoop | sys/net/inet/tcp.c:568-585 | the walk over the stored ranges produces exactly the intended merge |
| Tcp.DataStart | sys/net/inet/tcp.c:395 | the payload starts at th_off*4, a multiple of 4 no larger than 60 |
| Tcp.Be16At | sys/net/inet/tcp.c:404 | the MSS value is a 16-bit big-endian number |
| Tcp.OptStepAsWritten | sys/net/inet/tcp.c:396-409 | one written turn of the option loop that finds a value finds a 16-bit one |
| Tcp.OptStep | sys/net/inet/tcp.c:396-409 | one corrected turn either finds a 16-bit value or moves strictly forward |
| Tcp.MssFrom | sys/net/inet/tcp.c:393-411 | the option scan yields 536 when it reaches the payload, 0xFFFF at an end-of-list option, or the 16-bit value after an MSS kind byte found before the payload |
| Tcp.GetTcpoptMss | sys/net/inet/tcp.c:393-411 | get_tcpopt_mss (corrected: unknown options are skipped whole, and an unknown option whose length byte is below 2 ends the scan with the default 536, where the source steps backwards and can loop forever) scans from the end of the fixed header to the data offset and returns what the scan yields |
| Tcp.NoMssGivesDefault | sys/net/inet/tcp.c:396-410 | over any well-formed option list (each option starting where the previous ends, the last reaching the data offset) with no end-of-list and no MSS option, whatever bytes the options carry (a SACK-permitted option of length 2 included), the result is the default 536 |
| Tcp.FirstMssFound | sys/net/inet/tcp.c:396-410 | over a well-formed option list, the first MSS option not preceded by an end-of-list option gives the result: its 16-bit big-endian value |
| Tcp.NopsThenMss | sys/net/inet/tcp.c:400-404 | NOPs are skipped one byte at a time, so an MSS option after any number of them is found |
| Tcp.OptAsWrittenStalls | sys/net/inet/tcp.c:405-407 | for options SACK-permitted (length 2) then two NOPs, the written skip of length-2 bytes leaves the pointer where it was, so the loop never ends; the corrected scan returns 536 |

## Left out

- Port I/O, interrupt masking (`IRQ_DISABLE`/`IRQ_RESTORE`), mutexes and semaphores, sleeping and wakeups. Each operation is modelled as one atomic step with no interleaving.
- The mruby runtime of sys/kern/mrbscript/rtc.rb and its CMOS register reads (rtc.rb:6-9). The register values are parameters of `Rtc.ReadClock`.
- `strncpy` (sys/kern/kernlib.c): no modelled operation uses it.
- `chardev_init`, `chardev_add`, `chardev_read` and `chardev_write` (sys/kern/chardev.c): these dispatch to device drivers outside the model. Only the character buffer is modelled.
- Timer callbacks: the expired entries are returned as a list of jobs. They are not called.
- tcp.c, left out:
  - sending the RST in `tcpcb_abort`;
  - the retransmission and time-wait timers;
  - `tcblist_add_lock` and `wup_tsk`;
  - the blocking parts of connect, accept, send and receive.
- tcp.c:1333 tests `tcb->state`, but no `tcb` is declared in that function, so the line does not compile as written. The model uses the state of `cb`, the block being closed.
- util.c: `checksum_hdrstack`, `macaddr2str` and `ipaddr2str` are left out. They are formatting and stack walking over pointers.
- ip.c, left out:
  - the header checks of `ip_rx`: a missing brace makes its checksum test unreachable;
  - the byte copy of reassembly;
  - protocol dispatch;
  - `start_ip`, `ip_10sec`, `ip_getid` and `show_holelist`.
- ip.c: the hole loop reads the `next` field of a hole that `modify_inf_holelist` has just freed. The model keeps its place in the list instead.
- arp.c: `arp_tx`, the sending of frames waiting for an answer, the pending-frame helpers, and the table mutex.
- vmem.c: the anonymous and file mappers, `vm_map_free`, `vm_remove_area`, `vmem_init`, and a failing `malloc`.
- KernLib.Memcpy: src is a separate sequence, so the model cannot express a source range that overlaps dest. The byte loop at kernlib.c:28-32 would re-read bytes it has already written there.
- Ip.IpTx requires datalen + 20 < 2^32. The source adds the header length to the payload length in u32 arithmetic (ip.c:335, 345), and that sum wraps above this bound. No payload that large fits in the 32-bit address space.
- PktBuf.PktBuf.Copyin requires head + offset + size to stay inside the buffer, which pktbuf.c:44-48 does not check. Its offset is a natural number, where the source's `off_t` is signed, so a negative offset is not modelled.
- PktBuf.PktBuf.RemoveHeader requires head + size to stay inside the buffer. pktbuf.c:40-42 does not check this; the requires only keeps the pointers valid.
- pktbuf.c: `pktbuf_free`. Pointer arithmetic is on unbounded integers, so a pointer cannot wrap.
- Malloc.Heap.Free requires the address to be an object of a chunk. The source's whole-page branch is commented out (malloc.c:88-90), so freeing a whole-page allocation from `malloc` would take a chunk header from the page's own bytes. The model does not give that case a meaning. Freeing the last used object of a chunk does release the chunk's page.
- Malloc.Heap.GetNewChunk: the source continues after a failed `page_alloc`. The model returns None there.
- page.c: `page_getnfree` and `get_zeropage`.
- Page.PageAlloc.Init requires the page-descriptor table to fit below the end of usable memory. The source does not check this.
- netdev.c: the transmit and receive paths (`netdev_tx`, `netdev_rx`, the nowait variants), and `add_ifaddr`.
- NetDev.NetDevTable.Add requires a free slot. `netdev_add` has no bound check.
- thread.c, left out:
  - the stack set-up of `kthread_new`;
  - exec and fork, with `sys_execve` and `sys_fork`;
  - yield, `sleep_after_unlock` and `set_alarm`;
  - `thread_idle` and `dispatcher_init`.
- fat32.c: `fat32_getroot`, `fat32_lookup`, `get_lfn`, `release_cluster_chain` and `fat32_stat`. The block cache is not modelled, and neither is its `if(buf != NULL)` release quirk.
- Fat32.FatFile.Read: the file offset is kept as an integer and read through a 32-bit wrap, as `fat32_read` does. The `SEEK_*` values are not defined in the source, so the whence argument is a datatype.
- V6fs.InodeRead requires a file without the LARGE flag to be at most 4096 bytes. Past that size, the source indexes `blkno` out of bounds.
- V6fs.DentBlock: a directory entry's name is read as a C string that runs past its 14 bytes, as in the source. Reading past the end of the block gives NUL in the model.
- fs.c: `fs_read`, and a capacity bound for `fsinfo_add`. The table is unbounded here.
- Fs.Vfs.MountRoot requires a free mount-table slot. `fs_mountroot` does not check for one.
- vga.c: the formatter of `printf` (vga.c:136-171) is left out.
- elf.c: `elf32_load`, including its inverted validity test (elf.c:26).
- pci.c: port I/O is the `space` parameter, a map from configuration address to dword. The vendor and class strings of the log output and a failing `malloc` are left out.
- pci.c: `_pci_config_write16` and `_pci_config_write8` (pci.c:51-56, 62-67) end without a `return`, so `pci_config_write16/8` return an indeterminate value. Pci.Write16 and Pci.Write8 model only the port write they perform, not a value returned to the caller.
- pts.c: `pts_getstate`, the mutex and wakeups, character-device registration, and a failing `malloc`.
- Pts.PtsTable.Write and Pts.PtsTable.Read require the buffer they use to exist when the pair is in use. The source would dereference NULL otherwise.

## Findings

| source | as written | input that shows it | evidently intended | confidence | as-written member | corrected member |
|---|---|---|---|---|---|---|
| sys/kern/mrbscript/rtc.rb:29-32 | in 12-hour mode, a PM hour becomes `((h & 0x7F) + 12) % 24`, and an AM hour is unchanged | register 0x92 (12 PM) gives 0; register 0x12 (12 AM) gives 12 | 12 PM is hour 12 and 12 AM is hour 0 | not executed | Rtc.NoonReadsAsMidnight | Rtc.To24Hour |
| sys/kern/kernlib.c:23-26 | after n equal bytes, `strncmp` returns `s1[n] - s2[n]` | "ab" against "ac" with n = 1 gives -1 | 0 when the first n bytes agree | not executed | KernLib.StrncmpAsWrittenCountsPastN | KernLib.Strncmp0ZeroIff |
| sys/kern/elf.c:8-19 | the magic test uses that `strncmp`, which returns the class byte for a matching header | any ELFCLASS32 executable header is rejected | valid exactly when magic, class, data encoding and type match | not executed | Elf.IsValidExecAsWrittenRejectsAll | Elf.IsValidExecIff |
| sys/kern/netdev.c:29-48 | the queue is empty when head == tail, which is also true when it is full | a one-slot queue after one enqueue dequeues NULL | emptiness decided by the free count | not executed | NetDev.FullRingLooksEmpty | NetDev.NdQueue.DequeueByFree |
| sys/kern/malloc.c:9-78 | `bin` has MAX_BIN elements | a request of 2025 to 2032 bytes uses bin 254 | MAX_BIN + 1 bins | not executed | Malloc.BinIndexOverflows | Malloc.BinIndexInRange |
| sys/net/inet/util.c:36-65 | with odd len1, the straddling word shifts the whole first word of data2 | [1] and [2,3,4,5] give 0xf8f7, not 0xf9f6 | the checksum of the concatenation | not executed | InetUtil.Checksum2AsWrittenOddLen | InetUtil.Checksum2 |
| sys/net/inet/ip.c:147-237 | the INF hole is capped at newsize, one past the last byte | holes [0, 99] and [200, INF], then a last fragment of bytes 0..300: the hole loop leaves [301, 301] | cap at the last byte, so reassembly can complete | not executed | Ip.HoleLoopAsWrittenStrands | Ip.UpdateHoles |
| sys/net/inet/ip.c:109-135 | the reassembly-table search never advances its pointer | one entry, belonging to another datagram | walk the list and stop at its head | not executed | Ip.SearchAsWrittenSpins | Ip.ReasmTable.GetReasmInfo |
| sys/net/inet/ip.c:323-361 | `ip_tx` drops the next hop computed by `ip_routing` | 8.8.8.8 sent from 10.0.2.15/24 goes to ARP directly | send to the gateway 10.0.2.2 | not executed | Ip.TxNextHopAsWrittenSkipsGateway | Ip.IpTx |
| sys/net/inet/tcp.c:571-580 | the merge tests for arriving ranges absorb an unrelated older range | 10..19 stored, 30..39 arriving, 0 expected next | keep both ranges | not executed | Tcp.MergeAsWrittenDropsData | Tcp.MergeCovers |
| sys/net/inet/tcp.c:405-407 | an unknown option is skipped by length - 2 bytes | SACK-permitted (length 2), then two NOPs, with th_off = 6 | skip the whole option | not executed | Tcp.OptAsWrittenStalls | Tcp.GetTcpoptMss |
| sys/fs/fat32/fat32.c:384-385 | `count + offset` is computed in 32 bits and wraps | offset 100, count 0xFFFFFFF0, file size 1000 | read 900 bytes | not executed | Fat32.ReadAsWrittenOverruns | Fat32.FatFile.Read |
| sys/fs/v6fs/v6fs.c:152-161 | the double-indirect lookup drops vno % 256 | logical blocks 1792 and 1793 | distinct blocks for distinct vno | not executed | V6fs.VtopRefAsWrittenShares | V6fs.VtopRefInjective |
| sys/fs/v6fs/v6fs.c:168-189 | the return value is size - offset, even past the end | offset 600 in a 500-byte file gives -100 | 0 bytes read | not executed | V6fs.ReadResultAsWrittenAgrees | V6fs.InodeRead |
| sys/kern/vga.c:35-37 | a signed char is widened into the attribute byte | 0xDB drawn in white on blue becomes 0xFFDB | the colour kept in the high byte | not executed | Vga.EntryAsWrittenAttribute | Vga.Entry |
| sys/kern/vga.c:112-117 | `-val` of INT_MIN wraps back to INT_MIN | INT_MIN in base 10 indexes `numchar[-8]` | print -2147483648 | not executed | Vga.SignedDigitIndexAsWrittenRange | Vga.Console.PrintNumSigned |
| kernel/pci.c:51-67 | the merge uses `&=` where `\|=` is meant | 0x1234 at offset 4 over 0xFFFFFFFF writes 0 | 0xFFFF1234 | not executed | Pci.MergeAsWrittenIsZero | Pci.Write16 |
| sys/dev/pts/pts.c:113-123 | `pts_get` never marks the pair as used | on a fresh table, opening minor 0 from `pts_get` fails | the pair is in use once handed out | not executed | Pts.OpenAfterGetAsWritten | Pts.PairLoopback |
