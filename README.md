# A verified model of the memory, scheduling and synchronisation core of an rCore kernel

This project models in Dafny the sequential core of an rCore-based RISC-V
teaching kernel (Sv39 paging) and of its easy-fs file system, and proves
properties of that model. One module stands for each core source file:

- `Hw` (hw.dfy): the hardware and allocator state the memory managers act
  on. Page-table entries are named by (page table, virtual page); each
  holds a physical page number and a flag byte. There is a free set of
  frames and a map from frames to page contents. `frame_alloc` hands out a
  zeroed frame from the free set, and `invalidate` clears the V bit.
- `Areas` (areas.dfy) and `MemorySet` (memory_set.dfy): an address space
  (`MemorySet`) is a list of non-overlapping map areas. Each area has a
  page range, a map type (Identity, Framed, FileShared, FilePriv), a
  permission and one `Page` per virtual page. `Areas` holds the value side:
  - ranges, `intersects` and `exclude`;
  - `split` and `merge`, and the critical pages;
  - `has_mapped` and `has_unmapped`;
  - the list of areas `munmap` leaves.

  `MemorySet` is a class over a page table, the frame manager, the
  file-page bridge and the machine. Its operations are:
  - `MapArea::map`, `mmap` and `munmap`;
  - the page-fault dispatcher, with its ordered result codes -1 to -5, and
    `Page::{load, cown, fown, fork, fork_strict}`;
  - `cown` and `fork`.
- `MFrame` (mframe.dfy): `MFrameManager`, the state machine of framed
  PTEs. Each is `Lazy`, `Ownd(frame)` or `Cow(frame)`. The `Arc` around a
  shared frame is an explicit reference count. The class invariant states
  that this count always equals the number of sharers. It also states
  that a lazy PTE is not present, that any other points at an allocated
  frame, and that an owned frame belongs to one PTE only.
- `MFile` (mfile.dfy): `MFileManager`, the bridge between file pages and
  PTEs. It keeps at most one `MFile` per (inode, offset), a forward map
  from PTE to position and a reverse map back. `FilePos` ordering, `map`,
  `unmap`, `load`, `strict_dup` and `slim` (write back, then drop unused
  files) are modelled. A file is reduced to the page of bytes each
  position holds.
- `TaskManager` (task_manager.dfy): the FIFO ready queue with stride
  accounting. It covers the pass `BIG_STRIDE / priority` and the overflow
  renormalisation of `unify_stride` on 64-bit strides, and the pid table.
- `Deadlock` (deadlock.dfy): the allocation, request and available
  matrices of a process's semaphores, their update operations and the
  detection loop of `has_deadlock`. `has_deadlock` is proved to answer true
  exactly when no order of finishing all threads that hold something is
  possible (a reference definition, `Deadlocked`).
- `Sync` (sync.dfy): id allocation for mutexes, semaphores and condition
  variables, and the deadlock bookkeeping around semaphore `up` and `down`.
- `Process` (process.dfy): the result-code logic of the process syscalls:
  - the `sys_mmap` and `sys_munmap` argument checks, on top of
    `MemorySet`;
  - `sys_set_priority`, `sys_sigaction`, `sys_kill` and `sys_waitpid`;
  - the arithmetic of `sys_get_time`.
- `Vfs` (vfs.dfy): the flat root directory of easy-fs as a sequence of
  (name, inode) entries, with sizes and link counts per inode. It covers
  `find`, `create`, `link`, `unlink`, `ls`, `increase_size` and the size
  growth of `write_at` (sizes are 32-bit).

Rust's panics, `assert!`s and `unwrap`s on a caller's mistake are
preconditions (`requires`). The `panic!("impossible")` arms of
`MapArea::page_fault` are an explicit `Panicked` outcome instead, so the
model states exactly when they are reached. The same goes for the panics of
the semaphore syscalls' deadlock bookkeeping (an `avail` index out of
range, the `assert!`s of `pre_release`, `post_wait_succ` and `le_vec`):
they are reachable from user programs that create a semaphore before
enabling detection, or that `up` a semaphore while detection is switched
off, and are the `KernelPanic` outcome. Where the source mutates state
(the managers, the area list, the queue, the matrices, the directory), the
model is a class. Its methods carry `modifies` clauses and their `ensures`
state the whole new state. Loops become `while` loops with invariants.

Stride scheduling would run the task with the lowest stride next. The
task manager's `fetch` instead pops the front of the ready queue (FIFO,
os/src/task/manager.rs:63-65), and the model follows the code: the minimum
stride is used only to renormalise on overflow.

## Model

| member | source | states |
|---|---|---|
| Hw.Invalidated | os/src/mm/mframe.rs:55 | `invalidate` clears V only: the frame number and every other flag are kept |
| Hw.ZeroPage | os/src/mm/mframe.rs:69 | a fresh frame from `frame_alloc` is a page of zero bytes |
| Hw.Machine.FrameAlloc | os/src/mm/mframe.rs:69 | takes one frame out of the free set and zeroes it; the PTEs unchanged |
| Hw.Machine.SetPte | os/src/mm/mframe.rs:70-72 | writes one PTE and nothing else |
| Hw.Machine.Invalidate | os/src/mm/mframe.rs:55 | the PTE becomes `Invalidated` of itself and is not present; nothing else changes |
| Hw.Machine.FrameDealloc | os/src/mm/mframe.rs:110-112 | dropping the last `FrameTracker` of a frame puts it back in the free set; nothing else changes |
| Hw.Machine.CopyFrame | os/src/mm/mframe.rs:89 | one frame's bytes become a copy of another's; nothing else changes |
| Hw.Machine.CreateForce | os/src/mm/memory_set.rs:615 | `create_force`: an existing entry is kept, a missing one is created all zero, not present |
| Areas.Overlap | os/src/mm/memory_set.rs:424-428 | the intersection part of `exclude`: exactly the pages in both ranges, empty exactly when the ranges do not intersect |
| Areas.IntersectsIff | os/src/mm/memory_set.rs:418-420 | `intersects` holds exactly when some page lies in both ranges |
| Areas.Exclude | os/src/mm/memory_set.rs:472-473 | the third part of `exclude` is the overlap with the target |
| Areas.AnyCritical | os/src/mm/memory_set.rs:442-444 | true exactly when some page of the range is TRAMPOLINE or TRAP_CONTEXT_BASE |
| Areas.SplitPartition | os/src/mm/memory_set.rs:549-591 | both halves of a well-formed area are well formed, have the area's type, permission and file, and their pages partition the area's by `< vpn`; a split point outside the area leaves it whole beside an empty area |
| Areas.SplitArea | os/src/mm/memory_set.rs:549-591 | the page-moving loop of `split` yields exactly the two halves `Split` defines |
| Areas.MergeUnites | os/src/mm/memory_set.rs:523-547 | merging two well-formed areas that pass `merge`'s asserts gives a well-formed area whose range is the union of both and whose pages are both page maps |
| Areas.MergeSplit | os/src/mm/memory_set.rs:523-591 | splitting inside an area and merging the halves gives the area back: the halves pass the asserts, the file offset included |
| Areas.FilePageOffset | os/src/mm/memory_set.rs:626-641 | the intended file offset of a page: at least the area's offset and aligned like it |
| Areas.FilePageOffsetPages | os/src/mm/memory_set.rs:626-641 | page `v` of a file area is `v - start` pages past the area's file offset |
| Areas.SplitKeepsFilePages | os/src/mm/memory_set.rs:586-590 | with the intended offset, each page of either half keeps the file page it had in the whole area |
| Areas.DisjointPages | os/src/mm/memory_set.rs:445-447 | two distinct areas of a non-overlapping list share no page |
| Areas.AllPagesAt | os/src/mm/memory_set.rs:503 | a vpn has a page in the address space exactly when some area has one, and in non-overlapping areas that area's page |
| Areas.HasMapped | os/src/mm/memory_set.rs:418-420 | true exactly when some area's range intersects the range |
| Areas.CountOverlapCovered | os/src/mm/memory_set.rs:424-429 | in non-overlapping areas, the summed intersection sizes equal the number of pages of the range some area holds |
| Areas.HasUnmappedIff | os/src/mm/memory_set.rs:424-432 | in non-overlapping areas, `has_unmapped` is false exactly when every page of the range has an area |
| Areas.CutRemainders | os/src/mm/memory_set.rs:472-486 | an area the target misses is kept whole; one it meets survives as its left and right parts, whichever is non-empty, each as `split` cuts it off |
| Areas.RemaindersWf | os/src/mm/memory_set.rs:477-486 | the surviving parts are well formed, lie inside the area, miss the target and do not overlap each other |
| Areas.RemaindersPages | os/src/mm/memory_set.rs:477-486 | the surviving parts hold exactly the area's pages outside the target |
| Areas.CutPieces | os/src/mm/memory_set.rs:470-488 | what one round of `munmap`'s loop keeps is well formed, misses the target, lies inside the area and holds exactly the pages outside the target |
| Areas.CutMissed | os/src/mm/memory_set.rs:473-476 | the round for an area the target misses keeps it unchanged |
| Areas.CutMet | os/src/mm/memory_set.rs:477-486 | the round for an area the target meets keeps its remainders |
| Areas.CutMiddle | os/src/mm/memory_set.rs:477-487 | the middle piece that is dropped holds exactly the area's pages inside the target |
| Areas.CutArea | os/src/mm/memory_set.rs:472-487 | one round of the loop computed: the areas kept and the pages dropped, as `Cut` and `Inside` define them |
| Areas.MunmapDisjointFrom | os/src/mm/memory_set.rs:469-488 | no area `munmap` keeps meets a range none of the original areas met |
| Areas.MunmapMisses | os/src/mm/memory_set.rs:469-488 | no area `munmap` keeps meets the target |
| Areas.MunmapPages | os/src/mm/memory_set.rs:469-488 | the areas `munmap` keeps hold exactly the original pages outside the target |
| Areas.MunmapWf | os/src/mm/memory_set.rs:469-488 | the areas `munmap` keeps are well formed and do not overlap |
| Areas.MunmapKeeps | os/src/mm/memory_set.rs:469-488 | the three together: non-overlapping, missing the target, every page outside it kept |
| Areas.MissedRange | os/src/mm/memory_set.rs:445-447 | a range no area intersects holds no page of the address space |
| Areas.MissNothingInside | os/src/mm/memory_set.rs:473-476 | an area the target misses loses no page |
| Areas.KeptWhole | os/src/mm/memory_set.rs:473-476 | an area the target misses comes out of the loop as it was |
| MemorySet.VpnRange | os/src/mm/memory_set.rs:441 | `VPNRange::new(start_va.floor(), end_va.ceil())` holds exactly the pages that meet the byte range |
| MemorySet.FloorCeil | os/src/mm/memory_set.rs:462 | `floor` of the start is at most `v` exactly when page `v` ends after the start; `v` is below `ceil` of the end exactly when page `v` starts before the end |
| MemorySet.PermissionCode | os/src/mm/memory_set.rs:776-784 | -2 without U; otherwise -3 for an instruction fault without X, -4 for a store without W, -5 for a load without R; 0 exactly when the access is allowed |
| MemorySet.ResolveActsOnNeed | os/src/mm/memory_set.rs:786-865 | the dispatch loads only absent pages, copies on write only COW framed pages on a store, takes over only present read-only private file pages on a store, and panics on every identity area and every present shared-file page |
| MemorySet.FirstContaining | os/src/mm/memory_set.rs:503 | `iter().find`: none exactly when no area contains the page, otherwise the first area that does |
| MemorySet.FownAsWrittenBreaksBacked | os/src/mm/memory_set.rs:1052-1057 | as written, the PTE `fown` leaves owns its new frame but is not present, which the frame manager's invariant rules out |
| MemorySet.MemorySet.constructor | os/src/mm/memory_set.rs:59-64 | `new_bare`: no areas, over a page table with no entries, sharing the managers and the machine |
| MemorySet.MemorySet.DropPage | os/src/mm/memory_set.rs:928-935 | dropping a page untracks its PTE in both managers and leaves it not present; the other pages are still held |
| MemorySet.MemorySet.DropIdentityPage | os/src/mm/memory_set.rs:1084-1088 | the identity handle's drop invalidates its PTE |
| MemorySet.MemorySet.DropFramedPage | os/src/mm/mframe.rs:154-158 | the framed handle's drop untracks the PTE in the frame manager and leaves it not present |
| MemorySet.MemorySet.DropFilePage | os/src/mm/mfile.rs:203-207 | the file handle's drop untracks the PTE in the file bridge and leaves it not present |
| MemorySet.MemorySet.DropArea | os/src/mm/memory_set.rs:487 | dropping the middle piece untracks every page of it |
| MemorySet.MemorySet.Munmap | os/src/mm/memory_set.rs:457-490 | -1, nothing changed, exactly when the range holds a critical page or a page no area has; otherwise 0, the areas are those `munmap`'s loop keeps and neither manager tracks a PTE of the range any more |
| MemorySet.MemorySet.MunmapCut | os/src/mm/memory_set.rs:469-488 | over a fully mapped target, the areas become `MunmapAreas` and the range's PTEs are untracked |
| MemorySet.MemorySet.MunmapLoop | os/src/mm/memory_set.rs:470-488 | the loop cuts each area in turn and drops exactly the pages inside the target |
| MemorySet.MemorySet.AddIdentityPage | os/src/mm/memory_set.rs:1091-1096 | `MIdentityHandle::map` sets the PTE to the given entry and nothing else |
| MemorySet.MemorySet.AddFramedPage | os/src/mm/memory_set.rs:984-986 | `framed_lazy`: the PTE tracked as lazy, the other PTEs unchanged |
| MemorySet.MemorySet.AddFilePage | os/src/mm/memory_set.rs:977-982 | `file_shared`/`file_priv`: the bridge maps the PTE to the file page `k` pages past the area's offset (the intended offset, see Findings) |
| MemorySet.MapFileOffsetAsWritten | os/src/mm/memory_set.rs:626-641 | as written, the first page of a file area at offset 4096 maps file offset 0, where the intended mapping gives 4096 |
| MemorySet.FilePtesAsWrittenAgrees | os/src/mm/memory_set.rs:626-641 | the file mapping as written agrees with the intended one exactly when the area's offset is 0 |
| MemorySet.MemorySet.MapPages | os/src/mm/memory_set.rs:603-645 | `MapArea::map` makes one page of the area's kind per vpn: identity PTEs map the vpn itself with the permission and V, framed PTEs become lazy, file PTEs map the file page at the intended offset, the area's own offset plus `k` pages (see Findings) |
| MemorySet.MemorySet.MapLoop | os/src/mm/memory_set.rs:612-642 | the per-vpn loops of `map`, from no page of the range to all of them, file pages at the intended offset (see Findings) |
| MemorySet.MemorySet.MapNew | os/src/mm/memory_set.rs:95-97 | `map` then `new_area`: the new area appended and the managers extended by its pages, for a range no area meets; file pages at the intended offset (see Findings) |
| MemorySet.MemorySet.Mmap | os/src/mm/memory_set.rs:435-453 | -1, nothing changed, exactly when the range holds a critical page or meets an area; otherwise 0 and one new framed area of lazy pages over the range |
| MemorySet.MemorySet.LoadFramed | os/src/mm/mframe.rs:63-76 | a lazy page gets a zeroed frame and the PTE points at it with the flags; an owned page is left alone |
| MemorySet.MemorySet.LoadFile | os/src/mm/mfile.rs:179-185 | the PTE points at the file page's frame; a page not yet in memory takes one free frame, left zeroed as `MFile::load` is written (see Findings) |
| MemorySet.MemorySet.LoadPage | os/src/mm/memory_set.rs:1063-1078 | nothing for an identity page; framed and file pages end present, a private file page without W, a newly loaded frame zeroed (as written); only this page's PTE changes |
| MemorySet.MemorySet.CownPage | os/src/mm/memory_set.rs:1032-1046 | true exactly for a COW framed page, which then owns a writable frame holding what the shared one held |
| MemorySet.MemorySet.CownCopyPage | os/src/mm/mframe.rs:87-96 | a COW page whose frame others share gets a copy in a new frame |
| MemorySet.MemorySet.CownSolePage | os/src/mm/mframe.rs:97-103 | the last sharer keeps its frame, made writable, memory unchanged |
| MemorySet.MemorySet.FownPage | os/src/mm/memory_set.rs:1048-1060 | true exactly for a private file page, which becomes a framed page owning a new writable frame that holds a copy of the frame the PTE pointed at, no longer tracked by the bridge; other pages unchanged (as intended, see Findings) |
| MemorySet.MemorySet.FownSwap | os/src/mm/memory_set.rs:1052-1057 | the managers' side of `fown`: the bridge lets go of the PTE and the frame manager owns a copy of its frame, the PTE left present (as intended, see Findings) |
| MemorySet.MemorySet.FownUnmap | os/src/mm/mfile.rs:153-160 | the bridge unmaps a loaded file page: its PTE untracked and invalidated |
| MemorySet.MemorySet.CreateUntracked | os/src/mm/memory_set.rs:741 | `create_force` on an untracked PTE: an existing entry is kept, a new one is not present |
| MemorySet.MemorySet.CopyInto | os/src/mm/memory_set.rs:1055-1056 | a new owned frame for the PTE under the flags, taken from the free set and holding a copy of the source frame |
| MemorySet.MemorySet.AreaPageFault | os/src/mm/memory_set.rs:770-866 | the permission code first; a panic exactly where the dispatch has no route; 0 changes only this page and its PTE and leaves the access allowed, except a store to a private file area's page already framed, which changes nothing; the `fown` route as intended (see Findings) |
| MemorySet.MemorySet.FaultLoad | os/src/mm/memory_set.rs:792-828 | the `load_one` routes leave the access allowed |
| MemorySet.MemorySet.FaultCown | os/src/mm/memory_set.rs:829-833 | the copy-on-write route leaves the store allowed |
| MemorySet.MemorySet.FaultFown | os/src/mm/memory_set.rs:845-848 | the `fown` route leaves the store allowed, or changes nothing for an already framed page (as intended, see Findings) |
| MemorySet.MemorySet.FaultLoadFown | os/src/mm/memory_set.rs:849-854 | load then `fown` leaves the store allowed (as intended, see Findings) |
| MemorySet.MemorySet.PageFault | os/src/mm/memory_set.rs:501-508 | -1 exactly when no area contains the page; otherwise the first such area's permission code, and on 0 the access is allowed or nothing changed (`fown` as intended, see Findings) |
| MemorySet.MemorySet.Cown | os/src/mm/memory_set.rs:347-353 | true exactly when the first area containing the page has a COW framed page there, which then owns a writable frame; otherwise frames and machine unchanged |
| MemorySet.MemorySet.ForkIdentity | os/src/mm/memory_set.rs:996-1004 | the child's identity entry is a copy of the parent's |
| MemorySet.MemorySet.ForkFramed | os/src/mm/memory_set.rs:1005-1007 | `share_cow` from the parent's PTE to the child's: a lazy page stays lazy in both; otherwise both track the frame as COW and the child's entry equals the parent's, whose W bit an owned page loses |
| MemorySet.MemorySet.ForkFile | os/src/mm/memory_set.rs:1008-1013 | `share_fully` as intended (see Findings): the child's PTE maps the same file page and is not present |
| MemorySet.MemorySet.ForkStrictPage | os/src/mm/memory_set.rs:1018-1030 | the child gets one new frame holding a copy of the parent's owned frame, under the parent's flags |
| MemorySet.MemorySet.ForkPage | os/src/mm/memory_set.rs:993-1015 | `Page::fork` by the kind of the parent's page; only the two PTEs of this vpn change |
| MemorySet.MemorySet.ForkArea | os/src/mm/memory_set.rs:740-751 | the child's area is the parent's area over the child's table, every page forked, no frame allocated |
| MemorySet.MemorySet.ForkStrictArea | os/src/mm/memory_set.rs:757-768 | every page of a critical area copied into a frame of the child's own |
| MemorySet.MemorySet.NewArea | os/src/mm/memory_set.rs:95-97 | the area pushed onto the address space, the parent left as it was |
| MemorySet.MemorySet.Fork | os/src/mm/memory_set.rs:356-368 | a new address space whose areas are the forks of this one's in order, critical areas copied strictly and the others shared; exactly one frame per page of a critical area is allocated; file pages shared as `share_fully` intends (see Findings) |
| MFrame.MFrameManager.constructor | os/src/mm/mframe.rs:25-28 | an empty table and no shared frames |
| MFrame.MFrameManager.IsLazy | os/src/mm/mframe.rs:33-38 | `is_lazy`: under the invariant, true exactly when the PTE is not present |
| MFrame.MFrameManager.IsOwned | os/src/mm/mframe.rs:39-44 | `is_owned`: an owned PTE is present, points at its own frame, and that frame is allocated |
| MFrame.MFrameManager.IsCow | os/src/mm/mframe.rs:45-50 | `is_cow`: a copy-on-write PTE is present and is among the sharers its frame's reference count (at least one) counts |
| MFrame.MFrameManager.MapLazy | os/src/mm/mframe.rs:51-56 | the PTE is tracked as `Lazy` and invalidated; nothing else changes |
| MFrame.MFrameManager.Load | os/src/mm/mframe.rs:62-76 | on `Lazy`, exactly one frame is taken from the free set, zeroed, and the PTE points at it with the flags, now `Ownd`; on `Ownd`, nothing changes; `Cow` panics, a precondition |
| MFrame.MFrameManager.MapStrict | os/src/mm/mframe.rs:57-61 | `map_lazy` then `load`: the PTE owns one newly allocated zeroed frame under the flags |
| MFrame.MFrameManager.Cown | os/src/mm/mframe.rs:77-107 | `Ownd` unchanged; a shared `Cow` gets one new frame holding a copy of the shared one, writable, and the shared frame's count drops by one; the last sharer keeps its frame, made writable, with no allocation; `Lazy` panics, a precondition |
| MFrame.MFrameManager.CownCopy | os/src/mm/mframe.rs:87-96 | the `Err(arc)` arm: a private copy in a new frame, one reference dropped, no other PTE changed |
| MFrame.MFrameManager.CownSole | os/src/mm/mframe.rs:97-103 | the `Ok(frame)` arm: the frame kept, no allocation, the PTE writable |
| MFrame.MFrameManager.Unmap | os/src/mm/mframe.rs:108-114 | the PTE is untracked (it must be tracked) and invalidated unless it was `Lazy`; an owned frame or a shared frame's last reference goes back to the free set, other shared frames lose one reference |
| MFrame.MFrameManager.DropOwned | os/src/mm/mframe.rs:112 | an owned entry's frame is freed and its PTE invalidated |
| MFrame.MFrameManager.DropShared | os/src/mm/mframe.rs:112 | a shared entry drops one reference, the last one freeing the frame; its PTE is invalidated |
| MFrame.MFrameManager.ShareCow | os/src/mm/mframe.rs:115-142 | `Lazy`: the borrower is `Lazy` and no frame is allocated; `Ownd`: origin and borrower are both `Cow` of the frame, count 2, both PTEs the origin's entry without W; `Cow`: the borrower joins with the origin's entry and the count rises by one |
| MFrame.MFrameManager.ShareOwned | os/src/mm/mframe.rs:122-132 | the `Ownd` arm of `share_cow` |
| MFrame.MFrameManager.ShareShared | os/src/mm/mframe.rs:133-140 | the `COW` arm of `share_cow` |
| MFrame.MFrameManager.ForkShare | os/src/mm/memory_set.rs:1005-1007 | the borrower's PTE is created (not present) if needed, then `share_cow`: both PTEs end as `CowShared` says and no other PTE changes |
| MFrame.CowSharedOf | os/src/mm/mframe.rs:115-142 | the three arms of `share_cow` together give `CowShared`: the same state for both PTEs, lazy staying lazy, otherwise both `Cow` of the origin's frame with one entry |
| MFrame.OwnedNotShared | os/src/mm/mframe.rs:20-22 | an owned frame has no sharers and no reference count |
| MFrame.SharersUpdate | os/src/mm/mframe.rs:22 | setting one entry adds it to or removes it from the sharers of each frame, so `rc` tracks the `Arc`'s strong count |
| MFile.Cmp | os/src/mm/mfile.rs:22-48 | `FilePos::cmp`: Equal exactly for equal positions, Less exactly when the inode id is smaller or the ids agree and the offset is smaller |
| MFile.CmpFlip | os/src/mm/mfile.rs:22-34 | swapping the operands flips the answer (antisymmetry) |
| MFile.CmpTransitive | os/src/mm/mfile.rs:22-34 | Less is transitive, so the order is total |
| MFile.Synced | os/src/mm/mfile.rs:89-98 | writing a page back at its position changes that position's data to the page and no other position's |
| MFile.LoadSyncAsWrittenLosesData | os/src/mm/mfile.rs:89-111 | as written, a page holding data that is loaded and synced back reads as zeros afterwards |
| MFile.LoadedAsWrittenAgrees | os/src/mm/mfile.rs:100-111 | the zeroed frame `MFile::load` leaves holds the file's page exactly when that page reads as zeros |
| MFile.LoadSyncRoundTrip | os/src/mm/mfile.rs:89-111 | if `load` filled the frame with the file's page, as intended (see Findings), loading a page and syncing it back would leave every page of every file as it was |
| MFile.MFileManager.constructor | os/src/mm/mfile.rs:119-125 | no files and empty forward and reverse maps |
| MFile.MFileManager.Map | os/src/mm/mfile.rs:130-149 | the PTE maps the position; the first mapping of a position creates its unloaded file, later ones attach to it, so there is one file per position; the PTE joins the position's reverse-map set |
| MFile.MFileManager.HandleMap | os/src/mm/mfile.rs:210-217 | `map` with a page-aligned offset (the assert, a precondition) |
| MFile.MFileManager.ShareFully | os/src/mm/mfile.rs:223-231 | as intended, with the first guard released before `map` (see Findings): the other PTE is tracked as mapping the same position and joins its reverse-map set; the files are unchanged |
| MFile.NestedTakeSpins | os/src/mm/mfile.rs:116-118 | on the non-reentrant manager mutex, a `lock()` taken while the previous guard is alive never returns, whatever steps come before or after |
| MFile.ShareFullySpins | os/src/mm/mfile.rs:224-226 | as written, `share_fully` locks the manager a second time while its first guard is alive, so it never returns |
| MFile.ShareFullyIntendedReturns | os/src/mm/mfile.rs:224-226 | with the first guard dropped before `map`, `share_fully` returns and leaves the manager unlocked |
| MFile.MFileManager.Unmap | os/src/mm/mfile.rs:150-160 | an untracked PTE changes nothing; a tracked one leaves both maps and is invalidated exactly when its file is loaded; the file stays until `slim` |
| MFile.MFileManager.FileLoad | os/src/mm/mfile.rs:99-111 | idempotent: a loaded file keeps its frame and nothing changes; otherwise exactly one frame is allocated and recorded, and, as written, it is left as `frame_alloc` zeroed it, not filled from the file |
| MFile.MFileManager.Load | os/src/mm/mfile.rs:173-185 | the file is loaded (a newly allocated frame left zeroed, as written) and only the passed PTE is pointed at its frame with the flags, so every PTE loaded for one position gets the same frame |
| MFile.MFileManager.GetFilePos | os/src/mm/mfile.rs:187-189 | the position recorded for the PTE is a tracked file whose reverse-map set lists the PTE |
| MFile.MFileManager.IsLoaded | os/src/mm/mfile.rs:85-87 | `loaded` of the PTE's file: a loaded file's frame is allocated, and the PTE of a file not loaded is not present |
| MFile.MFileManager.StrictDup | os/src/mm/mfile.rs:191-196 | the file must be loaded (the asserts, a precondition); its frame's bytes are copied into the destination frame and nothing else changes |
| MFile.MFileManager.Sync | os/src/mm/mfile.rs:88-98 | a loaded unused file's page is written back at its position and its frame freed; an unloaded one changes nothing |
| MFile.MFileManager.Recycle | os/src/mm/mfile.rs:168-171 | one round of `slim`'s loop: the file synced, then removed from the file set |
| MFile.MFileManager.Slim | os/src/mm/mfile.rs:161-172 | exactly the files no PTE maps are dropped, each loaded one having its page written back and its frame freed; the others stay as they are |
| MFile.SlimStep | os/src/mm/mfile.rs:168-171 | dropping one more file extends the pages written back and the frames freed by its own |
| TaskManager.WrappingAdd | os/src/task/manager.rs:37 | the 64-bit wrapping sum is below 2^64, and it equals the true sum exactly when the true sum fits |
| TaskManager.Pass | os/src/task/manager.rs:36 | `BIG_STRIDE / priority` is at most BIG_STRIDE, and at most half of it from priority 2 up |
| TaskManager.WrapDetectsOverflow | os/src/task/manager.rs:37-40 | the "does not overflow" test `stride.wrapping_add(pass) > stride` holds exactly when the pass is nonzero and stride + pass fits in 64 bits |
| TaskManager.MinStridePos | os/src/task/manager.rs:26-32 | None exactly for an empty queue; otherwise an index holding the queue's minimum stride, with every earlier stride strictly larger (the first minimum, as `min_by_key` picks) |
| TaskManager.SubAll | os/src/task/manager.rs:50-52 | every queued stride lowered by the same amount `m` |
| TaskManager.UnifyNoOverflow | os/src/task/manager.rs:37-40 | without overflow the added task's stride grows by its pass and the queued strides are untouched |
| TaskManager.UnifyOverflowEmpty | os/src/task/manager.rs:41-46 | on overflow with an empty queue the added task's stride is reset to 0 |
| TaskManager.UnifyRenormalises | os/src/task/manager.rs:47-53 | on overflow with a minimum at `k`, `m = min(queue minimum, stride)` bounds every queued stride from below; the queue is lowered by `m` and the added task gets `(stride - m) + pass` |
| TaskManager.UnifyOverflow | os/src/task/manager.rs:41-54 | on overflow with a non-empty queue, `m` is at most every stride, every queued stride and the added task's own are lowered by `m`, and the differences and order between queued strides are preserved |
| TaskManager.SubQueued | os/src/task/manager.rs:50-52 | the loop lowers the stride of every queued task by `m` and no other stride changes |
| TaskManager.UnifyStrides | os/src/task/manager.rs:34-56 | the stride table after `unify_stride`: the queued strides and the added task's stride are exactly what `Unify` gives, every stride stays below 2^64, other tasks unchanged |
| TaskManager.Renormalise | os/src/task/manager.rs:47-54 | the overflow branch with a non-empty queue, with the same contract as `UnifyStrides` |
| TaskManager.TaskManager.constructor | os/src/task/manager.rs:21-25 | an empty ready queue |
| TaskManager.TaskManager.UnifyStride | os/src/task/manager.rs:34-56 | the manager's strides become `Unify` of the old queue strides, the added task's stride and its pass; queue and priorities unchanged |
| TaskManager.TaskManager.Add | os/src/task/manager.rs:58-61 | strides accounted as `unify_stride`, then the added task appended at the back of the queue |
| TaskManager.TaskManager.Fetch | os/src/task/manager.rs:63-65 | FIFO: None on an empty queue, otherwise the front task, removed; strides unchanged |
| TaskManager.PidTable.constructor | os/src/task/manager.rs:71-72 | an empty pid table |
| TaskManager.PidTable.Lookup | os/src/task/manager.rs:90-94 | Some exactly for a registered pid, with its task |
| TaskManager.PidTable.Remove | os/src/task/manager.rs:96-102 | the pid's entry removed, so that lookup then answers None; removing an absent pid panics, a precondition |
| TaskManager.AddTask | os/src/task/manager.rs:75-82 | the pid registered for the control block, then `add`: the added task appended to the queue with its stride accounted |
| Deadlock.VecAdd | os/src/task/deadlock.rs:41-44 | `add_to`: the pointwise sum, cell by cell |
| Deadlock.Zeros | os/src/task/deadlock.rs:32-34 | a row of `n` zeros, which `all_zero` accepts |
| Deadlock.PadRow | os/src/task/deadlock.rs:54-59 | a row padded with zeros to at least `n` cells, its old cells kept |
| Deadlock.Pad | os/src/task/deadlock.rs:46-61 | `prepare_lock_state` on one matrix: at least `nt` rows, the first `nt` at least `nl` wide, old cells kept, new cells 0, nothing wider than needed |
| Deadlock.PadCells | os/src/task/deadlock.rs:46-61 | every cell of a padded matrix is the old cell, or 0 where there was none |
| Deadlock.PadIdempotent | os/src/task/deadlock.rs:46-61 | preparing twice with the same bounds is the same as preparing once |
| Deadlock.PadRows | os/src/task/deadlock.rs:47-60 | the while loops of `prepare_lock_state` compute `Pad` |
| Deadlock.PadRowInPlace | os/src/task/deadlock.rs:54-59 | the inner push-zero loop computes `PadRow` |
| Deadlock.PadBump | os/src/task/deadlock.rs:132-134 | raising a request before or after padding gives the same matrix |
| Deadlock.FindReady | os/src/task/deadlock.rs:113-122 | the first unfinished thread whose requests fit in the work vector, or None when no thread fits |
| Deadlock.MarkStep | os/src/task/deadlock.rs:114-119 | marking a thread whose requests fit extends a safe order, and the work vector grows by its allocation |
| Deadlock.NoHolderNoDeadlock | os/src/task/deadlock.rs:103-108 | a thread that holds nothing starts finished, so with no holder at all there is no deadlock |
| Deadlock.NoSafeOrder | os/src/task/deadlock.rs:123-128 | when marking stops with an unfinished lock holder, no safe order covers every holder |
| Deadlock.FalseCountMark | os/src/task/deadlock.rs:117 | marking one thread lowers the number of unfinished threads by one (the loop's termination) |
| Deadlock.Detect | os/src/task/deadlock.rs:97-129 | the marking loop answers deadlock exactly when `Deadlocked` holds: no order of threads, each request fitting in the free units plus what the earlier threads hold, covers every thread holding a lock (the banker's safety test) |
| Deadlock.InitFinish | os/src/task/deadlock.rs:103-108 | the threads that hold nothing start finished, the others unfinished |
| Deadlock.WorkFits | os/src/task/deadlock.rs:113-116 | `le_vec` of a request against the work vector is the same test as fitting in the free units plus what the finished threads hold |
| Deadlock.MarkKeeps | os/src/task/deadlock.rs:114-119 | marking a ready unfinished thread keeps the loop's invariant and finishes one more thread |
| Deadlock.DetectVerdict | os/src/task/deadlock.rs:123-128 | when marking stops, some thread is unfinished exactly when the state is `Deadlocked` |
| Deadlock.UpCallsCount | os/src/task/deadlock.rs:72-80 | `release_all_locks` calls `up` on lock `l` exactly as many times as the thread held units of `l` |
| Deadlock.RepeatCount | os/src/task/deadlock.rs:75-78 | the inner while loop's `up` calls are all on its own lock, one per unit |
| Deadlock.DrainRow | os/src/task/deadlock.rs:74-79 | the `for_each` leaves the row all zeros and issues the `up` calls of `UpCalls`, lock by lock |
| Deadlock.DrainCell | os/src/task/deadlock.rs:75-78 | the cell counted down to 0 with one `up` per unit |
| Deadlock.DrainStep | os/src/task/deadlock.rs:74-79 | one drained cell extends the drained prefix and its `up` calls |
| Deadlock.DeadlockDetection.constructor | os/src/task/deadlock.rs:23-30 | the given lock slots and empty matrices |
| Deadlock.DeadlockDetection.PrepareLockState | os/src/task/deadlock.rs:46-61 | both matrices padded as by `Pad`, nothing else changed, the detector's shape kept |
| Deadlock.DeadlockDetection.AddLock | os/src/syscall/sync.rs:137-152 | a semaphore stored under its slot with detection on: the slot filled and the matrices padded; a pushed slot's count is pushed onto `avail`, a reused slot's written at `avail[id]`, failing (the index panic) exactly when `avail` has no cell `id`; with one `avail` cell per slot it never fails and `avail[id]` is the count |
| Deadlock.DeadlockDetection.PreWait | os/src/task/deadlock.rs:63-65 | one more unit requested in cell `(tid, l)`, nothing else changed |
| Deadlock.DeadlockDetection.PostWaitSucc | os/src/task/deadlock.rs:66-71 | one unit moves from the request and from `avail` to the allocation; units per lock (free plus held) are conserved |
| Deadlock.DeadlockDetection.ReleaseAllLocks | os/src/task/deadlock.rs:72-80 | everything the thread held is added to `avail`, its row zeroed, and `up` called once per unit held, in lock order |
| Deadlock.DeadlockDetection.PostWaitFail | os/src/task/deadlock.rs:81-85 | the request withdrawn, then every lock of the thread released as `ReleaseAllLocks` |
| Deadlock.DeadlockDetection.PreRelease | os/src/task/deadlock.rs:86-89 | the matrices padded to cover `(tid, l)`, and the thread then holds a unit of `l` (the assert, a precondition) |
| Deadlock.DeadlockDetection.PostRelease | os/src/task/deadlock.rs:90-93 | one unit of `l` moves from the allocation back to `avail`; units per lock conserved |
| Deadlock.DeadlockDetection.HasDeadlock | os/src/task/deadlock.rs:95-129 | rows padded to the lock table; a panic (the `le_vec` assert) exactly when some thread exists and `avail` is not as long as the lock table; otherwise true exactly when the padded state is `Deadlocked` |
| Deadlock.DeadlockDetection.HasDeadlockIfWaitFor | os/src/task/deadlock.rs:132-138 | the panic of `has_deadlock`, with the extra request left in place; otherwise true exactly when the state with one more request of `tid` for `l` is `Deadlocked`, and afterwards the request is withdrawn and only padding remains |
| Deadlock.ColSumUpdate | os/src/task/deadlock.rs:66-71 | changing one allocation cell changes only its own column's sum, by the difference |
| Sync.FirstFree | os/src/syscall/sync.rs:45-57 | the id handed out is the lowest empty slot: every slot before it is in use, and it is empty or one past the list |
| Sync.OccupyFills | os/src/syscall/sync.rs:45-57 | storing the new object fills exactly the returned slot (appending when it is one past the end) and keeps every other slot |
| Sync.FirstFreeFull | os/src/syscall/sync.rs:54-56 | the object is appended exactly when every slot is in use |
| Sync.ProcessSync.MutexCreate | os/src/syscall/sync.rs:26-58 | the id is `FirstFree` of the mutex slots and that slot is filled; nothing else changes |
| Sync.ProcessSync.CondvarCreate | os/src/syscall/sync.rs:243-273 | the id is `FirstFree` of the condvar slots and that slot is filled; nothing else changes |
| Sync.ProcessSync.SemaphoreCreate | os/src/syscall/sync.rs:108-156 | the id is `FirstFree` of the semaphore slots and that slot is filled; with detection off the detector is untouched; with detection on the matrices are padded to `(tid+1) x (id+1)`, and the count is written at `avail[id]` for a reused slot, which panics exactly when `avail` has no cell `id`, or pushed onto `avail` for a new slot; when every semaphore was created with detection on, `avail[id]` is the count |
| Sync.ProcessSync.SemaphoreCreateIntended | os/src/syscall/sync.rs:137-152 | with the count recorded at its own id whether detection is on or not (see Findings): the id is `FirstFree`, `avail[id]` is the count, every other cell is kept, and there is one cell per slot |
| Sync.LateEnableAsWritten | os/src/syscall/sync.rs:137-152 | a semaphore created with detection off, then detection enabled and a second semaphore with count 5 created: id 1 is returned, `avail` is `[5]`, so the count sits in semaphore 0's cell, and a `down` on semaphore 1 panics the kernel |
| Sync.LateEnableIntended | os/src/syscall/sync.rs:137-152 | the same two creations with the intended create: `avail` is `[1, 5]`, each count at its own id |
| Sync.ProcessSync.SemaphoreUp | os/src/syscall/sync.rs:158-193 | without detection one `up` and 0; with detection `pre_release` pads the matrices and panics the kernel when the thread holds no unit (before any `up`); otherwise one `up`, then `post_release` panics when `avail` has no cell `id`, or moves one unit from `alloc[tid][id]` back to `avail[id]` and returns 0; when `avail` has one cell per slot, the only panic is the thread holding no unit |
| Sync.ProcessSync.UpDetecting | os/src/syscall/sync.rs:181-192 | the detecting path of `sys_semaphore_up`, with the same outcomes |
| Sync.ProcessSync.SemaphoreDown | os/src/syscall/sync.rs:195-241 | without detection a `down` and 0; with detection, when `avail` is shorter than the slot list (a semaphore created with detection off), `has_deadlock` panics the kernel after both paddings and the extra request; otherwise exactly `DownEffect`: -0xDEAD without any `down` and with nothing but padding changed when waiting would deadlock, otherwise a `down` followed by a unit granted (0), or a kernel panic in `post_wait_succ` with the request still bumped when the semaphore's `avail` cell is 0, or every lock of the thread released with one `up` per unit and the thread exited with -0xDEAD |
| Sync.ProcessSync.DownDetecting | os/src/syscall/sync.rs:216-236 | the detecting path of `sys_semaphore_down`, with the same panic and `DownEffect` contract |
| Sync.ProcessSync.DownAligned | os/src/syscall/sync.rs:216-236 | the detecting path when `avail` has one cell per slot: exactly `DownEffect` |
| Sync.ProcessSync.DownLive | os/src/syscall/sync.rs:224-236 | the wait after no deadlock was found: exactly the live half of `DownEffect`, the `post_wait_succ` panic included |
| Sync.ProcessSync.CheckDeadlock | os/src/syscall/sync.rs:216-221 | both rounds of padding, then a panic exactly when `avail` is shorter than the slot list; otherwise true exactly when the padded state with one more request of `tid` for `id` is `Deadlocked` |
| Sync.ProcessSync.WaitDown | os/src/syscall/sync.rs:224-236 | `pre_wait`, one `down`, then `post_wait_succ` and 0, or `post_wait_fail` and an exit with -0xDEAD, and the request matrix ends where it started; a granted `down` with the `avail` cell at 0 is a kernel panic (the assert of `post_wait_succ`), with the request still counted and nothing else changed |
| Sync.ProcessSync.EnableDeadlockDetect | os/src/syscall/sync.rs:318-323 | 0, and detection is on exactly for a nonzero argument |
| Sync.DownEffectDead | os/src/syscall/sync.rs:221-223 | returning -0xDEAD before any wait satisfies `DownEffect` |
| Sync.DownEffectLive | os/src/syscall/sync.rs:224-236 | a wait that is granted, panics in `post_wait_succ` or is abandoned satisfies `DownEffect` |
| Sync.ToggledUpAsWritten | os/src/syscall/sync.rs:180-191 | detection on, semaphore 0 created with count 0, detection off, an `up`, detection on again: `avail` is still `[0]`, and a granted `down` by a thread that holds nothing panics the kernel in `post_wait_succ` (os/src/task/deadlock.rs:67) |
| Sync.PreparedRowLive | os/src/syscall/sync.rs:218-221 | the second round of padding gives the thread no held lock it did not have after the first |
| Sync.PadKeepsCells | os/src/task/deadlock.rs:46-61 | padding to the whole lock table adds only zero cells to a row |
| Process.FirstZombie | os/src/syscall/process.rs:118-123 | the index of the first child that is a zombie and matches `pid`, or None exactly when no child is both |
| Process.GetTime | os/src/syscall/process.rs:172-176 | `sec * 1000000 + usec` is the microsecond count and `usec` is below one million |
| Process.GetTimeUnique | os/src/syscall/process.rs:172-176 | any split with those two properties is the one `sys_get_time` writes |
| Process.CheckSigactionError | os/src/syscall/process.rs:276-286 | an error exactly for a null action, a null old action, SIGKILL or SIGSTOP |
| Process.PermOfProtBits | os/src/syscall/process.rs:215-216 | bit 0 of `prot` grants R, bit 1 W, bit 2 X, U is always set, and no other bit |
| Process.MmapArgs | os/src/syscall/process.rs:202-216 | the arguments are refused exactly for an unaligned start or a `prot` that is zero or has a bit above the low three; otherwise `[start, start + len)` with the permission of `prot` |
| Process.MunmapArgs | os/src/syscall/process.rs:220-230 | refused exactly for an unaligned start; otherwise `[start, start + len)` |
| Process.SysMmap | os/src/syscall/process.rs:202-217 | -1 with nothing changed for refused arguments; otherwise what `MemorySet.mmap` of the range with the permission gives: the new lazy framed area appended, one lazy PTE per page of the range added to the frame manager, and the file manager's PTEs unchanged |
| Process.SysMunmap | os/src/syscall/process.rs:220-231 | -1 with nothing changed for an unaligned start; otherwise what `MemorySet.munmap` of the range gives: the areas cut around the range, and the range's PTEs of this page table untracked by both managers while every other PTE stays tracked as it was |
| Process.Pcb.SetPriority | os/src/syscall/process.rs:332-342 | a priority of at most 1 is refused with -1; otherwise it is stored and returned. The stored priority is the one the stride scheduler divides `BIG_STRIDE` by (`TaskManager.Pass`); being at least 2, it gives a pass of at most half of `BIG_STRIDE` |
| Process.Pcb.Sigaction | os/src/syscall/process.rs:288-311 | 0 exactly for a defined signal with no sigaction error; then the previous action is handed back and the new one stored; on -1 nothing changes |
| Process.Pcb.Waitpid | os/src/syscall/process.rs:94-143 | -1 exactly when no child matches; -2 exactly when children match but none is a zombie; otherwise the first matching zombie is removed from the children and its pid and exit code returned |
| Process.Kill | os/src/syscall/process.rs:145-162 | 0 exactly for a known pid, a defined signal and a signal not yet pending, which then becomes pending; otherwise -1 and the signals are unchanged |
| Vfs.Position | easy-fs/src/vfs.rs:43 | the index of the first entry with the name, or None exactly when no entry has it |
| Vfs.LookupFirst | easy-fs/src/vfs.rs:161-176 | the scan's answer agrees with `position`: the inode of the first entry with the name, None when there is none |
| Vfs.CountAppend | easy-fs/src/vfs.rs:57-68 | a new entry adds one to the count of entries naming its own inode and no other |
| Vfs.CountRemove | easy-fs/src/vfs.rs:43-44 | removing an entry takes one from its own inode's count and no other |
| Vfs.CountAbsent | easy-fs/src/vfs.rs:223 | an inode no entry names has count 0 (a newly allocated inode) |
| Vfs.CountPositive | easy-fs/src/vfs.rs:97-104 | an inode some entry names has a positive count |
| Vfs.Names | easy-fs/src/vfs.rs:258-273 | one name per entry, in directory order |
| Vfs.Grown | easy-fs/src/vfs.rs:193-208 | `increase_size`: the larger of the two sizes; a request below the current size changes nothing |
| Vfs.FileSystem.FindInodeId | easy-fs/src/vfs.rs:161-176 | the scan returns the inode of the first entry with the name, or None |
| Vfs.FileSystem.Find | easy-fs/src/vfs.rs:178-191 | the inode `find_inode_id` answers, which is allocated |
| Vfs.FileSystem.AddEntry | easy-fs/src/vfs.rs:57-68 | the entry appended at index `size / DIRENT_SZ` and the directory grown by one entry |
| Vfs.FileSystem.Create | easy-fs/src/vfs.rs:210-256 | None with nothing changed when the name exists; otherwise a free inode leaves the bitmap with one link and size 0, and the entry for it is appended; link counts stay equal to the number of entries naming each inode |
| Vfs.FileSystem.NewEntryCounts | easy-fs/src/vfs.rs:57-68 | an appended entry raises its own inode's count by one and leaves every other count |
| Vfs.FileSystem.Link | easy-fs/src/vfs.rs:70-93 | None with nothing changed when the name exists; otherwise `(name, inode)` appended and the target's link count raised by one |
| Vfs.FileSystem.RemoveEntryByName | easy-fs/src/vfs.rs:38-55 | None with nothing changed when absent; otherwise the first entry with the name is removed, the rest kept in order, the size set to what is left, and its inode returned |
| Vfs.FileSystem.Unlink | easy-fs/src/vfs.rs:95-109 | None with nothing changed for an absent name; otherwise the entry removed and `(inode, previous links)` returned; the inode is freed with its size gone exactly when its previous link count was 1, otherwise its count drops by one |
| Vfs.FileSystem.DropLink | easy-fs/src/vfs.rs:100-106 | `dec_links`, then at the last link `dealloc_inode` and `clear_internal`: the previous count is returned, and the inode goes back to the bitmap exactly when it was 1 |
| Vfs.FileSystem.Ls | easy-fs/src/vfs.rs:257-273 | the entry names in directory order, `size / DIRENT_SZ` of them |
| Vfs.FileSystem.IncreaseSize | easy-fs/src/vfs.rs:192-208 | the inode's size becomes `Grown` of the old size and the request; nothing else changes |
| Vfs.FileSystem.WriteAt | easy-fs/src/vfs.rs:279-288 | the file grows to at least the end of the written range (truncated to 32 bits, as the `as u32` cast does), and to at least `offset + len` when that fits |

## Left out

- Locking is not modelled. This covers the `spin::Mutex`es around the frame manager, the file-page bridge and the task manager, and the `try_lock` retry loop of `sys_waitpid` (os/src/syscall/process.rs:110-124). Each operation is taken to run alone. The one exception is the manager mutex taken twice by `share_fully`, whose lock steps `MFile.RunLocks` models.
- MFile.MFileManager.ShareFully: modelled as intended, as `map(other, pos)` with the first guard released first. As written, `share_fully` (os/src/mm/mfile.rs:224-231) never returns: it locks the non-reentrant manager mutex again while its first guard is alive. `MFile.ShareFullySpins` states this on a model of the lock steps; see Findings.
- MemorySet.MemorySet.ForkFile: uses `share_fully` as intended. As written, forking any address space that holds a file page hangs the kernel in `share_fully`.
- MemorySet.MemorySet.Fork: file pages are shared as `share_fully` intends; as written the fork of an address space with a file area never returns.
- MemorySet.MemorySet.AddFilePage: the bridge is given the intended offset, the area's offset plus `k` pages. As written `MapArea::map` passes `k` pages past 0 (`MemorySet.FilePtesAsWritten`); see Findings.
- MemorySet.MemorySet.MapPages: file pages at the intended offset, as in `AddFilePage`; `MemorySet.FilePtesAsWritten` is the mapping as written.
- MemorySet.MemorySet.MapLoop: file pages at the intended offset, as in `AddFilePage`.
- MemorySet.MemorySet.MapNew: file pages at the intended offset, as in `AddFilePage`.
- MemorySet.MemorySet.FownPage: `fown` as intended, leaving the PTE present on its new frame. As written the dropped file handle invalidates that PTE (`MemorySet.FownAsWrittenBreaksBacked`); see Findings.
- MemorySet.MemorySet.FownSwap: `fown` as intended, as in `FownPage`.
- MemorySet.MemorySet.FaultFown: uses `fown` as intended, so the store is allowed afterwards; as written the PTE is left not present.
- MemorySet.MemorySet.FaultLoadFown: uses `fown` as intended, as in `FaultFown`.
- MemorySet.MemorySet.AreaPageFault: the `fown` route is the intended one, as in `FaultFown`.
- MemorySet.MemorySet.PageFault: the `fown` route is the intended one, as in `FaultFown`.
- MFile.MFileManager.FileLoad and the load paths that use it (`MFile.MFileManager.Load`, `MemorySet.MemorySet.LoadFile`, `MemorySet.MemorySet.LoadPage`) follow `MFile::load` as written: the new frame is left zeroed. The intended load, which reads the file page, is `MFile.LoadedPage`, and its round trip with `sync` is proved only on values (`MFile.LoadSyncRoundTrip`); see Findings.
- The blocking behaviour of `Mutex`, `Semaphore`, `Condvar` and `sys_sleep` is abstract. Whether a blocking `down` succeeds is a parameter, and each `up`/`down` issued is recorded in a list.
- `sys_mutex_lock`, `sys_mutex_unlock`, `sys_condvar_signal` and `sys_condvar_wait` are left out. Their deadlock checks call process methods whose code is not part of this model.
- The plumbing syscalls are left out because they are built on task-control-block code that is not part of this model: `sys_exit`, `sys_yield`, `sys_getpid`, `sys_fork`, `sys_exec`, `sys_spawn`, `sys_sigreturn`, `sys_task_info`, `sys_sbrk`, `sys_sigprocmask`.
- `MemorySet::new_kernel`, `activate`, `map_trampoline`, `kernel_token` and `remap_test` are left out. They work on linker symbols, the satp CSR and `sfence.vma`.
- ELF loading (`from_elf`, `from_elf_lazy`), `copy_data` and the user-stack layout arithmetic are left out. ELF parsing is done by an external crate, and the copy moves raw bytes into physical pages.
- `MemorySet::{translate, recycle_data_pages, shrink_to, append_to}` and `MapArea::{shrink_to, append_to, load_all, then_load_all}` are left out. They are not among the core operations. `shrink_to` and `append_to` are `split` and `merge`, both of which are modelled.
- `frame_alloc`, `PageTable`, `PageTableEntry` and `VPNRange` are not part of this model. PTEs are abstract ids with a frame number and a flag byte. The allocator is a free set. A range is the half-open interval of its ends.
- In easy-fs, `DiskInode`, the block cache, block allocation and file bytes are not part of this model. Inodes are reduced to sizes, link counts and the free set of the inode bitmap.
- os/src/hart.rs, os/src/task/context.rs and os/src/drivers/block/virtio_blk.rs are left out. They are firmware, assembly-context and device-driver code.
- Kernel panics on running out of frames are preconditions. This applies to `MemorySet.MemorySet.AreaPageFault` and `MemorySet.MemorySet.PageFault` (`|hw.free| >= 2`) and to `MemorySet.MemorySet.Cown`, `MemorySet.MemorySet.LoadPage` and `MFrame.MFrameManager.Load` (a non-empty free set). The state in which the source would panic is not modelled.
- MemorySet.MemorySet.Fork: requires enough free frames for the strict copies and a page table with no entries yet for the child. `new_bare` and `map_trampoline` are not modelled, so the child starts without the trampoline.
- MemorySet.MemorySet.ForkStrictPage: `MFrameHandle::strict_dup` and `by_frame`, which `fork_strict` and `fown` call (os/src/mm/memory_set.rs:1026,1056), are not part of this model. Their effect is taken to be a new owned frame holding a copy of the source frame, under the given flags.
- MemorySet.MemorySet.AreaPageFault: a store to a page of a private file area that is already framed (a copy-on-write page left by `fork`) reaches `fown`. `fown` returns false for a framed page, so the fault returns 0 with nothing changed, and the access stays denied. The model states this outcome as written.
- MFrame.MFrameManager.ShareCow: requires the borrower's PTE to be untracked and, for a lazy origin, not present. The source leaves the borrower from `create_force` as it is.
- Vfs.FileSystem.Link: requires the target inode to be an allocated inode other than the root. The source does not check this; a link to any other id would corrupt the link counts.
- Vfs.FileSystem.Create: requires a free inode. `alloc_inode` panics when the bitmap is full.
- TaskManager.TaskManager.UnifyStride: the renormalised stride (os/src/task/manager.rs:53) is computed modulo 2^64, as a release build does. A debug build would panic if it overflowed.
- TaskManager.TaskManager.Register: the creation of a task control block (priority 16, stride 0) is not part of this model. `Register` stands in for it.
- Process.Kill: `1 << signum` for a signum outside 0..31 is taken to give no valid flag, so the result is -1. The shift's overflow behaviour in Rust is not modelled.
- Process.MmapArgs: `start + len` is not wrapped at 2^64, and the `VirtAddr::from` conversion of both ends (os/src/syscall/process.rs:213-214), which keeps only the low 39 bits, is not modelled; addresses at or above 2^39 are taken as they are.
- Process.MunmapArgs: `start + len` is not wrapped at 2^64, and the 39-bit `VirtAddr` masking of both ends is not modelled, as in `MmapArgs`.
- Names in directory entries are whole abstract strings. The fixed-width on-disk directory entry of easy-fs, with its name-length limit and NUL termination, is defined outside the modelled files.
- Vfs.FileSystem.constructor: a stand-in for the root directory that the easy-fs format code creates. That code (`EasyFileSystem::create` and `root_inode`) is not part of this model.
- Sync.ProcessSync.constructor: a stand-in for the synchronisation fields of a new process control block, whose creation code is not part of this model.
- Process.Pcb.constructor: a stand-in for the creation of a process control block (priority 16, no pending signals), which is not part of this model.
- Hw.Machine.constructor: a stand-in for the boot-time state of the frame allocator and memory: no page-table entries and the given free frames.
- Sync.ProcessSync.SemaphoreCreate, Sync.ProcessSync.SemaphoreUp and Sync.ProcessSync.SemaphoreDown: a kernel panic, the `post_wait_succ` assert included, is the `KernelPanic` outcome. The state at the panic is the state the source had built up to that point; nothing after it is modelled.
- Byte-level contents of pages are modelled only as whole-page values. `read_at`/`write_at` of a file page are a read and a write of one map entry.

## Findings

| source | as written | input that shows it | evidently intended | confidence | as-written member | corrected member |
|---|---|---|---|---|---|---|
| os/src/mm/memory_set.rs:628 | `MapArea::map` gives the page at `vpn` of a file area the offset `(vpn - start) * PAGE_SIZE`, without the area's own `file_offset` | `map_file_priv` with `offset` 4096 over one page: its page is mapped to file offset 0 | the offset `file_offset + (vpn - start) * PAGE_SIZE`, which `split` and `merge` keep consistent | not executed | MemorySet.MapFileOffsetAsWritten | MemorySet.MemorySet.MapPages |
| os/src/mm/mfile.rs:100-111 | `MFile::load` allocates a frame but never reads the file page into it; `sync` later writes that frame back | a file whose page at offset 0 holds `[1]`: loading it and syncing it back leaves the zero page there | `load` reads the page from the file into the new frame, so load followed by sync leaves the file as it was | not executed | MFile.LoadSyncAsWrittenLosesData | MFile.LoadSyncRoundTrip |
| os/src/mm/memory_set.rs:1055-1057 | `fown` maps a new frame with `map_strict` on the same PTE, then `*self = Page::Framed(handle)` drops the old `MFileHandle`; its `drop` calls the bridge's `unmap`, which invalidates that PTE because the file is loaded (os/src/mm/mfile.rs:153-160) | any store fault on a present read-only page of a `FilePriv` area: afterwards the frame manager owns a frame for a PTE that is not present | the file handle is released without touching the PTE, leaving the new frame mapped and writable | not executed | MemorySet.FownAsWrittenBreaksBacked | MemorySet.MemorySet.FownPage |
| os/src/mm/mfile.rs:224-231 | `share_fully` keeps the guard `lock` of `MFILE_MANAGER` alive while `MFILE_MANAGER.lock().map(..)` locks it again; `spin::Mutex` is not reentrant | any `fork` of an address space with a file area: the child's file page reaches `share_fully`, whose second `lock()` spins for ever | the first guard is dropped once the position is read, then `map` locks the manager | not executed | MFile.ShareFullySpins | MFile.MFileManager.ShareFully |
| os/src/syscall/sync.rs:137-152 | `sys_semaphore_create` stores a count in `avail` only while detection is on, and pushes it for a new slot, so a semaphore created earlier leaves `avail` shorter than the slot list | semaphore 0 created with count 1 and detection off, detection enabled, semaphore 1 created with count 5: `avail` is `[5]`, and a `down` on semaphore 1 panics in `has_deadlock` | every count recorded at its own id, whether detection is on or not | not executed | Sync.LateEnableAsWritten | Sync.ProcessSync.SemaphoreCreateIntended |
