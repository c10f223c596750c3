# Page-replacement MMU models

This project models the page-replacement engine of a virtual-memory simulator. Each policy is an "MMU" object. It owns a fixed number of physical frames and records which virtual page sits in which frame. On a miss it picks a victim according to its policy. It counts page faults, disk reads and disk writes.

The repository carries three copies of the engine, and each class becomes one Dafny module with one class:

| module | source | policy and bookkeeping |
|---|---|---|
| `P2Clock` | PythonP2/clockmmu.py | clock (second chance); array of `{page, ref, dirty}` frames, page map and a rotating pointer |
| `P2Lru` | PythonP2/lrummu.py | LRU on an ordered dictionary, least recently used first |
| `P2Rand` | PythonP2/randmmu.py | random overwrite of a plain list; no dirty bits |
| `TemplateLru` | PythonP2/template/lrummu.py | LRU with logical timestamps, `min` victim and a key list |
| `TemplateRand` | PythonP2/template/randmmu.py | random victim over a frame array and a page map, with dirty bits |
| `PyClock` | py/clockmmu.py | clock over `memory` (page to record) and `frame_table` (frame to page) |
| `PyLru` | py/lrummu.py | LRU over `memory` and `frame_table` with a logical clock |
| `PyRand` | py/randmmu.py | random victim over `memory` and `frame_table` |

Three more modules complete the project:
- `Frames` holds the frame-table helpers every policy shares: the lowest empty frame and the occupancy count.
- `ClockSweep` holds the second-chance sweep both clock copies share, stated as the distance the hand travels before it meets a clear bit.
- `Scenarios` runs short access traces through the classes and states the counters and resident pages they end with.

Each class has these parts:
- fields are the source's fields; a fixed frame table is an `array`, and a dictionary or list the source mutates is a `map` or `seq` field;
- `Wellformed()` says the two bookkeeping structures agree;
- `Valid()` adds the counter invariant: `disk_reads == page_faults`, and every disk write followed a fault on a full table;
- `ReadMemory`/`WriteMemory` preserve `Valid()` and state the new state exactly.

On a miss, the new state is given by a function of the old state (`AfterLoad`, `AfterReplace`, `Admitted`, `Inserted`) or by a two-state predicate over the old and new state (`Loaded`, `Missed`). Partner lemmas then prove what that definition means:
- the lowest empty frame is used while there is one;
- otherwise the victim is the policy's victim, for example the least recently used page or the first unreferenced frame from the hand;
- a write-back is counted exactly when the victim was dirty;
- all other pages keep their frames.

The random index drawn by `random.randint` is a method parameter, constrained to a valid frame.

Two behaviours of the code are worth stating on their own:
- **Clock with every bit set.** With two frames and `read 1, read 2, read 1, write 3`, both reference bits are set when page 3 faults. The sweep clears both, comes back to frame 0 and evicts page 1; page 2 stays, with its bit cleared. This holds for both clock implementations (`Scenarios.WorkingClockTrace`, `Scenarios.AlternateClockTrace`).
- **Working random MMU writes.** PythonP2/randmmu.py keeps no dirty bits and counts a disk write on every overwrite of a full table, whether or not the page was written. `Scenarios.WorkingRandCleanTrace` shows a write counted for a page that was only read.

## Model

| member | source | states |
|---|---|---|
| Frames.FirstFree | PythonP2/clockmmu.py:50-56 | the index found is an empty frame, every frame below it is occupied, and there is none exactly when every frame is occupied |
| Frames.FindFree | PythonP2/template/randmmu.py:48-54 | the `for` scan returns the lowest empty frame, or nothing when the table is full |
| Frames.Occupied | PythonP2/template/randmmu.py:6 | the number of occupied frames, at most the table size, equal to it exactly when no frame is empty |
| Frames.OccupiedStore | PythonP2/template/randmmu.py:49-50 | filling a frame raises the occupancy by one exactly when that frame was empty |
| ClockSweep.Advance | PythonP2/clockmmu.py:75 | moving the hand round the clock always lands on a frame in `[0, frames)` |
| ClockSweep.NextFrame | PythonP2/clockmmu.py:80 | `(pointer + 1) % frames` is the next frame round the clock |
| ClockSweep.ClearDistance | PythonP2/clockmmu.py:58-80 | the hand passes at most `frames` frames, all with the bit set, and stops on one whose bit is clear unless every bit was set |
| ClockSweep.VictimFrame | PythonP2/clockmmu.py:58-80 | the sweep stops on the first clear frame from the hand, or comes back to the frame it started on when every bit was set |
| P2Clock.RefBits | PythonP2/clockmmu.py:60 | one bit per frame, the reference bit the sweep tests |
| P2Clock.Swept | PythonP2/clockmmu.py:79 | the frame table once the hand has cleared the reference bits of the frames it passed; no frame is emptied or filled and no page or dirty bit changes |
| P2Clock.ClockMMU.Loaded | PythonP2/clockmmu.py:48-80 | the new state after `_replace_page`: the lowest empty frame takes the page with the pointer unmoved, or the sweep's victim frame takes it, the victim leaves the map, the pointer ends one past it and a write is counted iff it was dirty; either way the page ends mapped to a frame holding it with `ref` set and `dirty == is_write` |
| P2Clock.ClockMMU.constructor | PythonP2/clockmmu.py:4-12 | all frames empty, empty page map, pointer 0, counters 0, and the invariant holds |
| P2Clock.ClockMMU.ReadMemory | PythonP2/clockmmu.py:20-32 | a hit sets only the frame's reference bit and no counter; a miss counts one fault and one read and loads the page |
| P2Clock.ClockMMU.WriteMemory | PythonP2/clockmmu.py:34-47 | a hit sets the frame's reference and dirty bits and no counter; a miss counts one fault and one read and loads the page dirty |
| P2Clock.ClockMMU.ReplacePage | PythonP2/clockmmu.py:48-80 | the page goes into the lowest empty frame with `ref` set and the pointer unmoved, or, on a full table, into the frame the sweep chooses |
| P2Clock.ClockMMU.ClockReplace | PythonP2/clockmmu.py:57-76 | the victim's page leaves the map and the new page maps to its frame; the pointer ends one past the victim; a write is counted iff the victim was dirty |
| P2Clock.ClockMMU.SweepHand | PythonP2/clockmmu.py:58-80 | the loop clears the bit of each referenced frame it passes and stops, within `frames` steps, on the frame `ClearDistance` names, whose bit is clear |
| P2Clock.ClockMMU.GetTotalDiskReads | PythonP2/clockmmu.py:82-83 | returns the disk-read counter |
| P2Clock.ClockMMU.GetTotalDiskWrites | PythonP2/clockmmu.py:85-86 | returns the disk-write counter |
| P2Clock.ClockMMU.GetTotalPageFaults | PythonP2/clockmmu.py:88-89 | returns the page-fault counter |
| P2Clock.HitKeepsWellformed | PythonP2/clockmmu.py:36-38 | changing the bits of an occupied frame keeps page map and frame table inverse and the occupancy unchanged |
| P2Clock.InstallFree | PythonP2/clockmmu.py:52-53 | installing into an empty frame keeps `page_map[p] == i` iff frame `i` holds `p` |
| P2Clock.InstallVictim | PythonP2/clockmmu.py:70-72 | deleting the victim's page and mapping the new page to its frame keeps map and table inverse |
| P2Clock.EvictStep | PythonP2/clockmmu.py:59-72 | the sweep keeps the victim's page and dirty bit, and the replacement keeps map and table inverse with the occupancy equal to the map's size |
| P2Clock.SweepKeepsPages | PythonP2/clockmmu.py:79 | clearing reference bits moves no page and changes no dirty bit |
| P2Clock.SweepGivesSecondChance | PythonP2/clockmmu.py:58-80 | the victim is the first unreferenced frame from the pointer, or the starting frame when every bit was set; every frame passed ends with its bit cleared |
| P2Lru.Pages | PythonP2/lrummu.py:27 | the resident pages in recency order, one per entry |
| P2Lru.IndexOf | PythonP2/lrummu.py:29 | the position of a resident page in the recency order; no earlier entry holds it |
| P2Lru.MoveToEnd | PythonP2/lrummu.py:29-30 | after `pop` and re-insertion the entry is last, the entries before it stay and those after it move up one |
| P2Lru.Admitted | PythonP2/lrummu.py:37-43 | the recency order after a miss: the front entry popped when memory is full, then the new entry last; every other entry was already there |
| P2Lru.LruMMU.Missed | PythonP2/lrummu.py:34-43 | the new state after a miss: one more fault and read, the order `Admitted` gives, and one write iff the popped front entry was dirty; the missed page ends last |
| P2Lru.LruMMU.constructor | PythonP2/lrummu.py:7-16 | empty ordered dictionary, counters 0, and the invariant holds |
| P2Lru.LruMMU.ReadMemory | PythonP2/lrummu.py:26-45 | a hit moves the entry last with its dirty flag and changes no counter; a miss counts one fault and one read, pops the front entry when full (one write iff it was dirty) and appends the page clean |
| P2Lru.LruMMU.WriteMemory | PythonP2/lrummu.py:47-66 | a hit moves the entry last marked dirty and changes no counter; a miss is the read miss with the page appended dirty |
| P2Lru.LruMMU.GetTotalDiskReads | PythonP2/lrummu.py:68-70 | returns the disk-read counter |
| P2Lru.LruMMU.GetTotalDiskWrites | PythonP2/lrummu.py:72-74 | returns the disk-write counter |
| P2Lru.LruMMU.GetTotalPageFaults | PythonP2/lrummu.py:76-78 | returns the page-fault counter |
| P2Lru.MoveKeepsDistinct | PythonP2/lrummu.py:48-51 | moving a page's entry to the end keeps every page in the dictionary once |
| P2Lru.AdmitKeepsDistinct | PythonP2/lrummu.py:37-43 | a miss keeps pages distinct and at most `frames`, makes the new page last, keeps the order of the rest, and on a full memory removes exactly the front (least recently used) page |
| P2Rand.Inserted | PythonP2/randmmu.py:48-53 | the table after a miss: the page appended while there is room, otherwise written over the drawn slot; the page ends resident, the table within its size, and no other page appears |
| P2Rand.RandMMU.Missed | PythonP2/randmmu.py:41-53 | the new state after a miss: one more fault and read, the table `Inserted` gives, and one write exactly when the table was full; the page ends resident |
| P2Rand.RandMMU.constructor | PythonP2/randmmu.py:5-12 | an empty table of size `frames` with counters 0 and the invariant holding |
| P2Rand.RandMMU.ReadMemory | PythonP2/randmmu.py:20-36 | a hit changes nothing; a miss does exactly what a write miss does |
| P2Rand.RandMMU.WriteMemory | PythonP2/randmmu.py:39-60 | a hit changes nothing; a miss counts one fault and one read and appends the page, or overwrites slot `victim` of a full table and counts a write unconditionally |
| P2Rand.RandMMU.GetTotalDiskReads | PythonP2/randmmu.py:64-65 | returns the disk-read counter |
| P2Rand.RandMMU.GetTotalDiskWrites | PythonP2/randmmu.py:67-68 | returns the disk-write counter |
| P2Rand.RandMMU.GetTotalPageFaults | PythonP2/randmmu.py:70-71 | returns the page-fault counter |
| P2Rand.InsertKeepsDistinct | PythonP2/randmmu.py:41-53 | a miss leaves the page resident, the pages distinct and at most `table_size`; it appends while there is room, otherwise only the drawn slot changes |
| TemplateLru.LeastRecent | PythonP2/template/lrummu.py:56 | `min` by timestamp returns a resident page whose last use is no later than any other |
| TemplateLru.Position | PythonP2/template/lrummu.py:67 | the first occurrence of a key in `frame_list` |
| TemplateLru.RemoveFirst | PythonP2/template/lrummu.py:67 | `frame_list.remove(x)`: one element shorter, with every other element kept and nothing new |
| TemplateLru.AfterReplace | PythonP2/template/lrummu.py:48-71 | the table, list and write count after `_replace_page`: the page stamped with the current time and dirty iff `is_write`, appended last to the list, and at most one write counted |
| TemplateLru.LruMMU.constructor | PythonP2/template/lrummu.py:4-12 | empty table and list, time 0, counters 0, and the invariant holds |
| TemplateLru.LruMMU.ReadMemory | PythonP2/template/lrummu.py:20-32 | time rises by one; a hit restamps the page and changes no counter; a miss counts one fault and one read and replaces as `AfterReplace` says |
| TemplateLru.LruMMU.WriteMemory | PythonP2/template/lrummu.py:34-47 | as a read, with a hit also setting `dirty` and a miss loading the page dirty |
| TemplateLru.LruMMU.ReplacePage | PythonP2/template/lrummu.py:48-71 | the page takes frame index `len(frame_table)` while there is room, otherwise the frame of the `min` victim, and frame indices, stamps and the key list stay consistent |
| TemplateLru.LruMMU.GetTotalDiskReads | PythonP2/template/lrummu.py:73-74 | returns the disk-read counter |
| TemplateLru.LruMMU.GetTotalDiskWrites | PythonP2/template/lrummu.py:76-77 | returns the disk-write counter |
| TemplateLru.LruMMU.GetTotalPageFaults | PythonP2/template/lrummu.py:79-80 | returns the page-fault counter |
| TemplateLru.ListCovers | PythonP2/template/lrummu.py:50-51 | a repeat-free list as long as the key set and drawn from it names every key |
| TemplateLru.LeastRecentOfAll | PythonP2/template/lrummu.py:56 | with distinct stamps the page `min` picks was used strictly earlier than every other resident page |
| TemplateLru.ReplaceEvictsLeastRecent | PythonP2/template/lrummu.py:55-69 | on a full table exactly the least recently used page leaves, its frame goes to the new page, all other pages are untouched, the count stays `frames`, and a write is counted iff the victim was dirty |
| TemplateLru.Touch | PythonP2/template/lrummu.py:23 | restamping a hit with the current time keeps stamps distinct, frame indices dense and the key list exact |
| TemplateLru.LoadFree | PythonP2/template/lrummu.py:49-51 | frame index `len(frame_table)` keeps the indices distinct and below the resident count, and the list gains exactly the new key |
| TemplateLru.LoadVictim | PythonP2/template/lrummu.py:66-69 | deleting the victim and giving its frame to the new page keeps indices distinct, stamps distinct and the list equal to the keys |
| TemplateLru.RemoveFirstOfDistinct | PythonP2/template/lrummu.py:67 | `list.remove` drops exactly the given key and keeps the list repeat-free |
| TemplateRand.AfterReplace | PythonP2/template/randmmu.py:45-69 | the table, page map and write count after `_replace_page`: the page sits in the frame it maps to, with `dirty == is_write`, the table keeps its size, and at most one write is counted |
| TemplateRand.RandMMU.constructor | PythonP2/template/randmmu.py:4-11 | all frames empty, empty page map, counters 0, and the invariant holds |
| TemplateRand.RandMMU.ReadMemory | PythonP2/template/randmmu.py:19-30 | a hit changes no state at all; a miss counts one fault and one read and replaces as `AfterReplace` says |
| TemplateRand.RandMMU.WriteMemory | PythonP2/template/randmmu.py:32-44 | a hit sets only the frame's dirty flag; a miss counts one fault and one read and loads the page dirty |
| TemplateRand.RandMMU.ReplacePage | PythonP2/template/randmmu.py:45-69 | the page goes into the lowest empty frame, or into the drawn frame of a full table; map and table stay inverse |
| TemplateRand.RandMMU.GetTotalDiskReads | PythonP2/template/randmmu.py:71-72 | returns the disk-read counter |
| TemplateRand.RandMMU.GetTotalDiskWrites | PythonP2/template/randmmu.py:74-75 | returns the disk-write counter |
| TemplateRand.RandMMU.GetTotalPageFaults | PythonP2/template/randmmu.py:77-78 | returns the page-fault counter |
| TemplateRand.InstallFree | PythonP2/template/randmmu.py:50-51 | installing into an empty frame keeps map and table inverse and raises the resident count by one |
| TemplateRand.EvictStep | PythonP2/template/randmmu.py:65-67 | replacing the drawn frame's page keeps map and table inverse and the resident count unchanged |
| TemplateRand.ReplaceTakesFreeFrame | PythonP2/template/randmmu.py:48-54 | with an empty frame, the page lands in the lowest one with its dirty flag equal to `is_write`, no other frame changes and nothing is written back |
| TemplateRand.ReplaceEvictsVictim | PythonP2/template/randmmu.py:56-67 | on a full table the drawn frame's page leaves the map, the new page takes that frame, the others stay, the table stays full, and a write is counted iff the victim was dirty |
| PyClock.PassBits | py/clockmmu.py:17-19 | one bit per frame: the hand passes an empty frame or a page whose `ref` is set |
| PyClock.SweptMemory | py/clockmmu.py:31 | clearing `ref` bits keeps the set of resident pages |
| PyClock.Evicted | py/clockmmu.py:15-32 | the records, hand, write count and freed frame after `_evict`: the freed frame held a resident page, exactly that page leaves the records, the hand stays on a frame, and at most one write is counted |
| PyClock.AfterLoad | py/clockmmu.py:34-43 | the table, records, hand and write count after `_load_page`: the page is resident in a frame that holds it, with `ref` set and the given dirty flag |
| PyClock.ClockMMU.constructor | py/clockmmu.py:2-10 | empty records, all frames empty, hand 0, counters 0, and the invariant holds |
| PyClock.ClockMMU.ReadMemory | py/clockmmu.py:45-51 | a hit sets only the page's `ref` and no counter; a miss loads the page clean as `AfterLoad` says |
| PyClock.ClockMMU.WriteMemory | py/clockmmu.py:53-60 | a hit sets the page's `dirty` and `ref` and no counter; a miss loads the page dirty |
| PyClock.ClockMMU.LoadPage | py/clockmmu.py:34-43 | one read and one fault on both paths; the page goes into the first empty frame while `len(memory) < frames`, otherwise into the frame `_evict` returns, with `ref` set, and it returns that frame |
| PyClock.ClockMMU.Evict | py/clockmmu.py:15-32 | the records, hand, write count and returned frame are those `Evicted` describes; the frame table is untouched |
| PyClock.ClockMMU.Sweep | py/clockmmu.py:16-32 | the loop clears `ref` of each page it passes, skips empty frames, and stops, within `frames` steps, on a page whose `ref` is clear |
| PyClock.ClockMMU.GetTotalDiskReads | py/clockmmu.py:62 | returns the disk-read counter |
| PyClock.ClockMMU.GetTotalDiskWrites | py/clockmmu.py:63 | returns the disk-write counter |
| PyClock.ClockMMU.GetTotalPageFaults | py/clockmmu.py:64 | returns the page-fault counter |
| PyClock.EvictGivesSecondChance | py/clockmmu.py:15-32 | the victim is the first page from the hand with `ref` clear, or the page the hand started on when all were set; its frame is returned, the hand ends one past it, the other pages keep frame and dirty flag, and a write is counted iff it was dirty |
| PyClock.FullTable | py/clockmmu.py:35-38 | when `len(memory) == frames` no frame is `None`, so `_evict` always finds a page |
| PyClock.SweepStep | py/clockmmu.py:19 | after `k` steps, the page under the hand still has `ref` set exactly when the sweep has not reached its stopping distance |
| PyClock.SweepMove | py/clockmmu.py:31-32 | one step clears the bit under the hand, moves the hand one frame on, and keeps the stopping distance |
| PyClock.SweepClears | py/clockmmu.py:31 | one step clears the bit of the page under the hand and of no other page |
| PyClock.LoadFree | py/clockmmu.py:36-42 | installing into an empty frame keeps records and table inverse and raises the resident count by one |
| PyClock.EvictThenLoad | py/clockmmu.py:38-42 | installing into the frame `_evict` freed keeps records and table inverse and the resident count unchanged |
| PyClock.SweptConsistent | py/clockmmu.py:31 | clearing `ref` bits moves no page |
| PyClock.ReplaceInFrame | py/clockmmu.py:41-42 | putting the new page in the victim's frame keeps records and table inverse and the record count unchanged |
| PyLru.LeastRecentPage | py/lrummu.py:16 | the page `min(memory, key=last_used)` names, used strictly earlier than every other resident page |
| PyLru.EarliestOf | py/lrummu.py:16 | a page with the smallest `last_used` among the given keys |
| PyLru.MinIsLeastRecent | py/lrummu.py:16 | with distinct stamps, a page with the smallest stamp is the one least recently used |
| PyLru.AfterLoad | py/lrummu.py:26-35 | the table, records and write count after `_load_page`: the page is resident in a frame that holds it, with the given dirty flag and stamped with the current time |
| PyLru.LruMMU.constructor | py/lrummu.py:2-10 | empty records, all frames empty, time 0, counters 0, and the invariant holds |
| PyLru.LruMMU.ReadMemory | py/lrummu.py:37-44 | time rises by one; a hit restamps the page and changes no counter; a miss loads the page clean stamped with the new time |
| PyLru.LruMMU.WriteMemory | py/lrummu.py:46-54 | as a read, with a hit also setting `dirty` and a miss loading the page dirty |
| PyLru.LruMMU.LoadPage | py/lrummu.py:26-35 | one read and one fault; the page goes into the first empty frame, or into the least recently used page's frame, stamped with the current time, and it returns that frame |
| PyLru.LruMMU.Evict | py/lrummu.py:15-24 | removes exactly the least recently used page, counts a write iff it was dirty, and returns its frame |
| PyLru.LruMMU.GetTotalDiskReads | py/lrummu.py:56 | returns the disk-read counter |
| PyLru.LruMMU.GetTotalDiskWrites | py/lrummu.py:57 | returns the disk-write counter |
| PyLru.LruMMU.GetTotalPageFaults | py/lrummu.py:58 | returns the page-fault counter |
| PyLru.Restamp | py/lrummu.py:40 | restamping a hit with the current time keeps stamps distinct and the page in its frame |
| PyLru.LoadFree | py/lrummu.py:27-34 | loading into an empty frame keeps records and table inverse and stamps distinct, and raises the resident count by one |
| PyLru.LoadVictim | py/lrummu.py:29-34 | loading into the least recently used page's frame keeps records and table inverse and stamps distinct, and keeps the resident count |
| PyLru.LoadTakesFreeFrame | py/lrummu.py:27-34 | with an empty frame, the page lands in the lowest one stamped with the current time, other records stay and nothing is written back |
| PyLru.LoadEvictsLeastRecent | py/lrummu.py:15-34 | on a full table exactly the least recently used page leaves, the new page takes its frame, the others stay, the table stays full, and a write is counted iff the victim was dirty |
| PyRand.AfterLoad | py/randmmu.py:27-36 | the table, records and write count after `_load_page`: the page is resident in a frame that holds it, with the given dirty flag |
| PyRand.RandMMU.constructor | py/randmmu.py:4-11 | empty records, all frames empty, counters 0, and the invariant holds |
| PyRand.RandMMU.ReadMemory | py/randmmu.py:38-43 | a hit changes nothing; a miss loads the page clean as `AfterLoad` says |
| PyRand.RandMMU.WriteMemory | py/randmmu.py:45-51 | a hit sets only the page's `dirty`; a miss loads the page dirty |
| PyRand.RandMMU.LoadPage | py/randmmu.py:27-36 | one read and one fault; the page goes into the first empty frame, or into the drawn frame of a full table, and it returns that frame |
| PyRand.RandMMU.Evict | py/randmmu.py:16-25 | removes the page held in the drawn frame, counts a write iff it was dirty, and returns that frame |
| PyRand.RandMMU.GetTotalDiskReads | py/randmmu.py:53 | returns the disk-read counter |
| PyRand.RandMMU.GetTotalDiskWrites | py/randmmu.py:54 | returns the disk-write counter |
| PyRand.RandMMU.GetTotalPageFaults | py/randmmu.py:55 | returns the page-fault counter |
| PyRand.LoadFree | py/randmmu.py:28-35 | loading into an empty frame keeps records and table inverse and raises the resident count by one |
| PyRand.LoadVictim | py/randmmu.py:30-35 | loading into the drawn frame of a full table keeps records and table inverse and the resident count |
| PyRand.LoadTakesFreeFrame | py/randmmu.py:27-35 | with an empty frame, the page lands in the lowest one, other records stay and nothing is written back |
| PyRand.LoadEvictsDrawn | py/randmmu.py:16-35 | on a full table the drawn frame's page leaves, the new page takes that frame, the others stay, the table stays full, and a write is counted iff the victim was dirty |
| Scenarios.WorkingClockFilled | PythonP2/clockmmu.py:20-32 | `read 1, read 2, read 1` on two frames fills both frames with their bits set and the pointer on frame 0 |
| Scenarios.WorkingClockTrace | PythonP2/clockmmu.py:48-80 | then `write 3` evicts page 1 from frame 0 and leaves page 2 with its bit cleared: 3 faults, 3 reads, 0 writes |
| Scenarios.WorkingLruTrace | PythonP2/lrummu.py:26-45 | `read 1, read 2, read 1, read 3` on two frames evicts page 2: 3 faults, 3 reads, 0 writes |
| Scenarios.AlternateClockFilled | py/clockmmu.py:34-51 | `read 1, read 2, read 1` fills both frames with `ref` set and the hand on frame 0 |
| Scenarios.AlternateClockTrace | py/clockmmu.py:15-32 | then `write 3` evicts page 1 and leaves the hand on frame 1: 3 faults, 3 reads, 0 writes |
| Scenarios.TemplateLruLoaded | PythonP2/template/lrummu.py:48-54 | `read 1, read 2` gives frames 0 and 1 with stamps 1 and 2 |
| Scenarios.TemplateLruFilled | PythonP2/template/lrummu.py:20-26 | a further `read 1` restamps page 1 with time 3 |
| Scenarios.TemplateLruTrace | PythonP2/template/lrummu.py:55-69 | then `read 3` evicts page 2, the smallest stamp: 3 faults, 3 reads, 0 writes |
| Scenarios.AlternateLruLoaded | py/lrummu.py:26-35 | `read 1, read 2` gives frames 0 and 1 with stamps 1 and 2 |
| Scenarios.AlternateLruFilled | py/lrummu.py:37-41 | a further `read 1` restamps page 1 with time 3 |
| Scenarios.AlternateLruTrace | py/lrummu.py:15-24 | then `read 3` puts page 3 in page 2's frame: 3 faults, 3 reads, 0 writes |
| Scenarios.TemplateRandTrace | PythonP2/template/randmmu.py:45-69 | `write 5, read 6` on one frame writes dirty page 5 back: 2 faults, 2 reads, 1 write |
| Scenarios.AlternateRandTrace | py/randmmu.py:16-36 | `write 5, read 6` on one frame writes dirty page 5 back: 2 faults, 2 reads, 1 write |
| Scenarios.WorkingRandTrace | PythonP2/randmmu.py:39-53 | `write 5, read 6` on one slot: 2 faults, 2 reads, 1 write |
| Scenarios.WorkingRandCleanTrace | PythonP2/randmmu.py:48-51 | `read 5, read 6` on one slot still counts 1 write, as no dirty bit is kept |

## Left out

- `set_debug`, `reset_debug`, the `debug` flags and every `print` are left out. They only control tracing output and never touch counters or victims.
- `random.randint` is not modelled as a generator; the index it draws is a method parameter (`victim` or `draw`) required to lie in `[0, frames)`. The `random.seed(999)` call of PythonP2/randmmu.py:12 is left out with it.
- The `mmu.MMU` base class is not part of this model. It is only the common interface the working and template copies inherit from.
- P2Clock.ClockMMU.constructor requires `frames >= 1`. With no frames the source fails on its first miss, indexing an empty frame table. The same holds for the constructors below.
- P2Lru.LruMMU.constructor requires `frames >= 1`. With no frames the source pops from an empty dictionary on the first miss.
- P2Rand.RandMMU.constructor requires `frames >= 1`. With no frames `random.randint(0, -1)` fails on the first miss.
- TemplateLru.LruMMU.constructor requires `frames >= 1`. With no frames `min` over an empty table fails on the first miss.
- TemplateRand.RandMMU.constructor requires `frames >= 1`. With no frames `random.randint(0, -1)` fails on the first miss.
- PyClock.ClockMMU.constructor requires `frames >= 1`. With no frames the sweep indexes an empty frame table.
- PyLru.LruMMU.constructor requires `frames >= 1`. With no frames `min` over an empty dictionary fails.
- PyRand.RandMMU.constructor requires `frames >= 1`. With no frames `random.randint(0, -1)` fails.
- The `ref` field of py/clockmmu.py holds the integers 1 and 0. It is modelled as a boolean, since only those two values are ever stored.
- In the source, frames and records are dictionaries mutated in place. Each one belongs to exactly one frame or page, so no aliasing is lost by modelling them as immutable values replaced in the array or map.
- Pages are modelled as `nat`, where the Python methods accept any integer key. Every caller passes `int(addr, 16) >> 12`, which is never negative, so no input is lost.
- PyLru.LruMMU.Evict picks any page with the smallest `last_used`, where `min` takes the first in dictionary order. Stamps are pairwise distinct (an invariant of the model), so the two choices coincide.
- The reporting and experiment scripts (analyze_results.py, simple_analysis.py, run_experiments.py, count_unique_pages.py) are not part of this model. They only run the simulator, read traces and plot results.
