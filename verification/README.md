# PadoFS inode server: a Dafny model

PadoFS keeps the layout of a file as a set of extents, each mapping a range of the
file to a range of a data object. An inode server holds the inodes, serves requests
with a pool of worker threads, and agrees with other inode servers on who owns a base
inode through a mapping server. This project models four parts of it and proves what
they promise.

**The extent layout index** (`incont.c`). Every extent stands in three structures at
once: an AVL tree, the list threaded through it in order, and the reference list of its
object. `Extents` has the records as classes with the source's fields; `pivot`, the
address of the pointer that holds an extent, is a slot (the root of an inode, or the
left or right child of an extent). `Trees` and `Edits` are the theory of tree shapes:
what pointers a shape demands, and what rotation, splicing, substitution and attaching do
to the order. `Rebalancing`, `Surgery`, `RefLists` and `Layouts` are the source's methods
on the heap, proved against that theory. `ByteMap` is the meaning of a layout, a partial
map from file bytes to object bytes, and `Replacing` proves that `replace` is an update
of that map through every branch. The invariant speaks of the sequence of extents, not of
their keys, because within the loops of `replace` a substituted extent may start after
later victims. `Rewrites` says extent by extent what `replace` leaves: which old extents
stay, which are cut, and which neighbours become one. `Checks` has check_extent, and `replace` tells whether every assertion on
its way holds. `Balance` draws consequences: depths are heights, the size bound, the
counters, and what the source's self-checks pass.

`FileSpec` is the simple file, a size and a byte map, with its operations as functions;
`Files` has write, truncate, clone and object removal, `ReadLists` and `Reading` the
search and `pado_read`, `Copying` the composition of read and clone, `Requests` the
command dispatch on one inode over its whole life, with each request taken as atomic,
`Lives` what a sequence of requests adds up to, told by the requests themselves, and
`Backups` backup and restore. `InodeMaps` is inode_map under several worker threads: how
inodes are created, acquired, marked deleted, taken out of the table and freed.

**The worker pool** (`inserver.c`). `WorkerPool` is a transition system over all
interleavings of one acceptor and four workers, with the entries' `next` pointers, both
mutexes, the condition variable with spurious wake-ups, and the shutdown. Without any
fairness, the number of steps the workers take before a queued job is dequeued is bounded.

**Ownership** (`incont.c` with the mapping server, `lpmapser.c`). `Ownership` is a step
system of several inode servers with messages to the mapping server under way;
`MapServers` is the mapping server itself, on the hash table, and its answers refine the
two steps in which a message takes effect.

**The hash index** (`uthash.h`). `HashMath`, `HashIndex` and `HashTables` have the bucket
chains that double and the list in order of insertion, on the heap, with an arbitrary
hash function, against a finite map. `Sequences` has what all parts need of sequences
without repetition.

Where the code does less than a reader expects, the code is kept and the exact condition is
proved. A read with flag 0 is documented as a plain read, but it extends an extent back
over a hole before it, through a subtraction that wraps; it gives the byte map if and
only if no hole of the range precedes a mapped byte (`ReadLists.PlainExact`). A clone
list with an entry that starts exactly at the end of the range makes an empty extent,
since only entries past the end are skipped. Two things are asked of such a list, and for
each the exact condition is one a caller can check before the call:

- No empty extent is left if and only if `FileSpec.CloneFits` holds (`Files.PadoClone`): no
  entry starts at the end, or the file goes on there where that entry would, so that the
  last merge absorbs the empty extent, or the file is empty and the entry is the second and
  continues the first, which swallows it.
- With assertions compiled in, as the Makefile builds the server, none on the way trips if
  and only if `FileSpec.CloneStands` holds (`Files.PadoClone`, `Replacing.Replace`): no entry
  starts at the end; or the layout is empty and that entry is not the first, since otherwise
  the loop of `replace` asserts of the lone empty extent that it ends after its own end
  (incont.c:761); or there are more entries up to it than old extents inside the range, not
  counting a first entry that continues what lies before the range, since otherwise the empty
  extent replaces an old one and check_extent asserts that it is not empty (incont.c:378).

At the end of every request print_inode checks every extent again (inserver.c:619,
test.c:42), which an empty one does not pass (`Balance.PrintInode`). So the server survives a
clone if and only if both conditions hold (`Requests.Serve`), `Requests.Live` stops where
they do not, and `Requests.StoppedRun` is a run of three requests that stops at the third
although its list leaves no empty extent. What a method computes when an assertion does not
hold is what the stores give with the assertions compiled out.

free_inode looks its inode up by number and then deletes it from inode_map. If a creation
of the same number has replaced the deleted inode in between and is still there, it deletes
from the table an inode that is not in it; that happens exactly then (`InodeMaps.UnmapExact`).

What the code demands of its callers is stated as it is: a write has a positive length,
a cloned range is not empty, a clone list is sorted and disjoint, has entries of positive
length only and is closed by the (0, 0) address, and a key added to a hash table is not there
yet.

## Model

| member | source | states |
|---|---|---|
| Rebalancing.Relink | incont.c:1281-1315 | The stores of a rotation, for all four cases at once: exactly the slot of the unbalanced extent, the three role extents and their four subtrees are relinked, and the three depths become exact. |
| Rebalancing.Rotate | incont.c:1281-1315 | A rotation leaves the pointers a well-formed tree of the same extents, whichever four subtrees and three roles it is given, as long as they regroup the old subtree in order. |
| Rebalancing.ChooseRoles | incont.c:1241-1279 | When one child is deeper by more than one, the four branches pick roles that regroup the subtree in its old order and give balanced children; the imbalance is then exactly 2. |
| Rebalancing.RotateAt | incont.c:1241-1317 | One rotation keeps the in-order sequence, makes every extent but the new parent pass the depth tests, and changes the subtree depth by at most one; if the depth did not change the parent passes too. |
| Rebalancing.Refresh | incont.c:1318-1321 | Recomputing a depth affects the tests of the parent alone, by at most one; if the depth did not change nothing is left to repair. |
| Rebalancing.Rebalance | incont.c:1228-1324 | If one child of `start` changed its depth by at most one, then afterwards every extent has its exact depth and is balanced, the pointers form a tree of the same extents in the same order, and the walk up ends, also when it stops early. |
| Surgery.Substitute | incont.c:352-370 | A new extent takes the slot, children and depth of an old one; the tree is the old tree with that one extent exchanged. |
| Surgery.SpliceOut | incont.c:891-907 | An extent with at most one child leaves: the in-order sequence loses exactly it, and only its parent may be off by one. |
| Surgery.RemoveInner | incont.c:856-889 | An extent with two children is replaced by its predecessor, which has no right child, also when the predecessor is its own left child; the in-order sequence loses exactly the target and the walk for rebalancing starts at the right extent. |
| Surgery.RemoveFromTree | incont.c:854-909 | Removal in the leaf, one-child and two-children cases followed by rebalancing deletes exactly one element of the in-order sequence and restores exact, balanced depths. |
| Edits.Predecessor | incont.c:858-861 | The predecessor in order of an extent with a left child lies in its left subtree and has no right child. |
| Edits.Successor | incont.c:799-804 | The successor in order of an extent with a right child lies in its right subtree and has no left child, so an anchor whose slot is taken has a neighbour whose opposite slot is free. |
| Edits.SpliceOrder | incont.c:891-907 | Splicing an extent with at most one child out of a tree deletes its element from the in-order sequence. |
| Edits.SubstituteOrder | incont.c:349-370 | Substituting an extent replaces its element of the in-order sequence. |
| Edits.AttachOrder | incont.c:797-824 | Hanging a leaf at a free left or right slot inserts it right before or right after its parent in order. |
| Trees.RotateLinks | incont.c:1281-1312 | The children and the slot of every extent after a rotation, in terms of those before it. |
| Layouts.Unthread | incont.c:846-852 | Unlinking one extent leaves a doubly linked list that visits exactly the others, in order. |
| Layouts.InsertExtentList | incont.c:340-347 | The three-argument list insertion changes the two neighbours and the new extent only. |
| Layouts.RemoveExtent | incont.c:843-912 | The target leaves the list, the tree and its object's references at once: the order loses exactly it, all structures stay well formed, and a triggered release that empties the object removes the object. |
| Layouts.ReplaceExtent | incont.c:349-380 | The new extent takes the old one's place in tree and list, the order changes in exactly that place, and the old extent is released. |
| Layouts.SpotAfter | incont.c:797-809 | There is always a free child slot right after the left anchor: its own right slot, or the left slot of its successor. |
| Layouts.SpotBefore | incont.c:812-824 | There is always a free child slot right before the right anchor. |
| Layouts.InsertAfter | incont.c:797-829 | A pending extent is placed right after the left anchor in tree and list and the tree is balanced again. |
| Layouts.InsertBefore | incont.c:812-829 | A pending extent is placed right before the right anchor in tree and list and the tree is balanced again. |
| RefLists.CreateExtent | incont.c:283-307 | A new extent goes to the head of its object's reference list, and both counters count it. |
| RefLists.ReleaseExtent | incont.c:309-339 | The extent leaves its object's reference list and the counters; do_map loses the object exactly when a triggered release empties it. |
| Replacing.Locate | incont.c:676-745 | The search of `replace` ends at the first extent that ends after `start`, with the extent before it, and tells whether `start` falls inside. |
| Replacing.CutHead | incont.c:676-745 | Whatever branch the search ends in, the placed extents up to the seam together with the pending ones hold the old bytes below `start` and the new bytes of the range, and the rest is the old layout from the seam on. |
| Replacing.MergeFirst | incont.c:748-757 | Merging the first new extent into the one before the range joins exactly these two, and only if they run into each other; it changes no byte; an empty extent is swallowed exactly if it is the only new one and continues that extent. |
| Replacing.DeleteStep | incont.c:777-789 | Replacing or removing one victim moves the seam one extent on and changes no byte outside the range; check_extent passes of the extent just placed unless it is the empty last one. |
| Replacing.DeleteVictims | incont.c:759-790 | The deletion loop consumes all victims in order, takes new extents in order, and cuts the extent that reaches past the range; its own assertion always holds, and those of check_extent hold if and only if no empty extent is pending or there are more new extents pending than old ones inside the range. |
| Replacing.InsertRest | incont.c:792-830 | Every remaining new extent is placed in order; the branch without an anchor is never reached. |
| Replacing.MergeLast | incont.c:832-840 | The extent after the range is joined to the last new one exactly if they run into each other, and nothing else changes; no byte does; afterwards no extent is empty if and only if there was no empty one or the old layout goes on where it would. |
| Replacing.SeamAdvances | incont.c:777-789 | The byte-map invariant of the deletion loop, stated on the sequence of extents while key order is broken beyond the seam. |
| Replacing.Replace | incont.c:656-841 | `replace` refines a byte-map update: bytes of the range covered by the list go where the list says, uncovered ones become holes, all others keep their place. The extents are exactly `Rewritten` of the old ones and the list, and where the first new extent starts and the last one ends no two neighbours that run into each other are left; tree, list, reference lists, counters and do_map stay well formed. The list may end with an empty extent; one is left if and only if no merge takes it away, and every assertion holds if and only if the layout was empty and that extent is not the only new one, or there are more new extents than old ones inside the range, not counting a first one that continues what lies before. |
| Replacing.CheckExtentMidway | incont.c:377-379 | check_extent(newe, 1, 1), in the middle of the loops of `replace`, passes if and only if the extent is not the empty last one of a list that has one. |
| Replacing.Tally | incont.c:692-757 | Whether more new extents are pending after the head is cut and the first merge is done than old ones lie inside the range can be told from the old layout and the list. |
| Rewrites.RewrittenApart | incont.c:748-757 | Of any layout and any list without an empty extent: after `replace` no two neighbours run into each other where the first new extent starts or where the last one ends. |
| Rewrites.RewrittenStarts | incont.c:656-841 | No boundary is made up: an extent starts where an old or a new one does or at `end`. |
| Rewrites.OldBeforeStays | incont.c:676-745 | An old extent that ends before the range and does not run into its successor is still there, unchanged. |
| Rewrites.OldAfterStays | incont.c:759-790 | An old extent that starts after the range is still there, unchanged. |
| Rewrites.NewStays | incont.c:792-830 | A new extent that is neither the first nor the last is in the layout as it was given. |
| Rewrites.GapClosed | incont.c:748-757 | An extent that fills the gap between two extents it runs into makes one extent of the three. |
| ByteMap.SearchStep | incont.c:684-737 | One comparison at an extent decides the search or halves it, for every ordered layout. |
| ByteMap.HeadStraddling | incont.c:692-721 | Cutting the extent that `start` falls into keeps exactly the old bytes below `start`. |
| ByteMap.TailStraddling | incont.c:769-776 | Cutting the extent that reaches past `end` keeps exactly the old bytes from `end` on. |
| ByteMap.MergeKeeps | incont.c:748-756 | Merging two extents that run into each other in the file and in the object changes no byte and keeps the order. |
| ByteMap.Assemble | incont.c:656-841 | The head before the seam and the tail after it make up the overwritten byte map. |
| Balance.DepthIsHeight | incont.c:1299-1319 | The stored depth of every extent is the height of the subtree under it, and every subtree is height-balanced. |
| Balance.SizeBound | incont.c:1228-1324 | A balanced tree of height h has at least Fib(h + 2) - 1 extents. |
| Balance.SearchBound | incont.c:914-943 | num_exts is the number of extents in the tree and at least Fib(root depth + 2) - 1, so the search is logarithmically bounded. |
| Balance.RefsConserved | incont.c:283-339 | num_exts is the sum of num_refs over all objects. |
| Balance.CheckExtentPasses | incont.c:1343-1372 | Every assertion of check_extent holds of every extent of an inode at rest. |
| Balance.PrintInode | test.c:13-49 | The assertions of print_inode, which checks every extent, counts them and searches the tree for the greatest end, hold of an inode at rest, and fail of one with an empty extent. |
| Balance.CheckDobject | incont.c:1326-1341 | Walking the reference list counts num_refs extents. |
| Balance.CheckBst | test.c:51-81 | Along the pointers no child oversteps its parent, and the least start and greatest end found are those of the first and the last extent in order. |
| Balance.CheckLayout | test.c:13-29 | The greatest end found is at most the inode's size, and all mapped bytes lie between the bounds found. |
| Files.AcquireDobject | incont.c:383-453 | The object of an address is found, or made when the flag allows; nothing else changes. |
| Files.PadoWrite | incont.c:531-558 | The file becomes the old file with the range living in the object; its size is the larger of the old size and the end; the extents are exactly those of `replace`, num_exts counts them, and none runs into the one written; the invariant is kept, also on an empty layout. |
| Files.PadoTruncate | incont.c:560-577 | The size becomes the new size, larger or smaller, and exactly the bytes from the new size up to the old one become holes. |
| Files.ReadList | incont.c:606-643 | The list is read up to its end mark, clipped at `end`, and becomes pending in order. |
| Files.PadoClone | incont.c:606-653 | The range becomes what the list says, holes where it says nothing; the size is the larger of the old size and `end`; all structures stay well linked; no extent is empty if and only if the list fits the file; and every assertion on the way holds if and only if the list stands on the layout. |
| Files.CloneAtEnd | incont.c:632-634 | A list whose second entry starts at `end`, cloned into a new inode: every assertion of `replace` holds, and an extent of length 0 is left. |
| Files.RemoveDobject | incont.c:455-497 | Exactly the extents of the object go, in the order of the layout the others stay as they are and num_exts counts them; exactly the bytes mapped to the object become holes, and the object leaves do_map. |
| FileSpec.ClipFits | incont.c:632-634 | A clipped clone list is free of empty extents if and only if no entry starts exactly at `end`. |
| FileSpec.ClipSettles | incont.c:748-757 | The merges of `replace` take the empty extent of a clipped list away if and only if the file goes on at `end` where its entry would, or the file is empty and the entry is the second and continues the first. |
| FileSpec.EndEntriesThatFit | incont.c:748-757 | For either merge a list with an entry at `end` that leaves no empty extent. |
| FileSpec.ClipStands | incont.c:632-634 | The assertions of `replace` hold for a clipped list if and only if no entry starts at `end`, or the layout is empty and that entry is not the first, or the entries up to it are more than the old extents inside the range, not counting a first entry that continues what lies before. |
| FileSpec.StoppingLists | incont.c:761 | Two lists that trip an assertion: a lone entry at `end` on an empty layout, and, on every layout of a certain file, one that would leave no empty extent. |
| FileSpec.ClipAtEnd | incont.c:633-634 | A list with an entry that starts exactly at `end`: the clipped list has an empty extent. |
| FileSpec.ClipKeeps | incont.c:632-634 | Clipping changes no byte inside the range. |
| FileSpec.RunSized | incont.c:544 | Over any sequence of writes, truncations, clones of sorted lists and removals every mapped byte lies below the size. |
| FileSpec.CutStaysCut | incont.c:560-577 | A byte cut off by a truncation and not written since reads as a hole, however far the file has grown again. |
| FileSpec.ShrinkThenGrow | incont.c:560-577 | After any sequence of truncations exactly the bytes below the smallest size in between are mapped, and as before, and the size is the last one set. |
| FileSpec.SizeLaw | incont.c:544 | After any sequence of operations the size is the largest that the last truncation, or the size at the start, and the writes and clones since ask for. |
| FileSpec.ByteLaw | incont.c:531-653 | After any sequence of operations a byte lives at a place if and only if an operation put it there, or it was there at the start, and no later write, clone or truncation over the byte and no removal of the object took it away. |
| FileSpec.UpToMarkIs | incont.c:622-626 | The list of a clone is what the stream holds before its first end mark. |
| Reading.FindStartExtent | incont.c:914-943 | The tree search returns the extent a linear scan would, the first one that ends after `start`, and takes at most as many rounds as the root is deep, also if some extents are empty. |
| Reading.PadoRead | incont.c:946-1013 | With flag 1 the list tiles [start, min(end, size)) without gap or overlap, gives each byte its place or the base object for a hole, is divided exactly where an extent of the layout starts or ends, and reports a cloned base exactly if some byte was a hole; the break branch is not reached. With flag 0 the list tiles up to the last mapped byte and agrees with the byte map, modulo size_t, on every mapped byte. |
| ReadLists.PlainExact | incont.c:981-994 | A flag-0 read gives the byte map if and only if no hole of the range precedes a mapped byte of the range. |
| ReadLists.SimpleReadPastHole | incont.c:986-991 | A file with a hole before an extent of which no flag-0 read of the whole is right. |
| ReadLists.CopyRange | incont.c:946-1013 | A list read from a source with flag 1 and cloned to t copies the byte map: a source hole becomes the base object's byte, bytes past the source's size become holes, nothing outside the range changes; such a list fits every file, and is well formed for cloning if and only if it names no end mark. |
| Copying.CopyRangeTo | incont.c:606-653 | The two calls one after the other, on the inodes themselves, copy the byte map, trip no assertion, and the source is reported shared exactly if part of the range inside it was a hole. |
| Requests.StepGood | inserver.c:328-610 | Every request keeps: mapped bytes below the size, a reference count that is not negative, and for a deleted inode no bytes, no references, not shared. |
| Requests.ServesGood | inserver.c:328-610 | The same in every state any sequence of requests reaches. |
| Requests.AnswerIs | inserver.c:328-610 | Each reply by a condition on the state before: IS_DELETED exactly of a deleted inode, IS_USED exactly of a deletion while it is referenced, INVALID_UNREF without a reference, INVALID_RANGE of a read that is empty or past the size, INVALID_DOBJ of a removal when no byte lives in the object, or of the base when it is not shared. |
| Requests.RefusedKeeps | inserver.c:328-610 | A request that is refused with IS_DELETED, IS_USED or INVALID_RANGE changes neither file nor references; an inode is freed exactly by the request that marks it deleted. |
| Requests.DeletedForGood | inserver.c:335-337 | An inode marked deleted answers IS_DELETED to every request that had acquired it, is not freed again and never changes. |
| Requests.MappedIs | incont.c:383-411 | An address is in do_map if and only if some byte of the file lives in its object. |
| Requests.LayoutGone | incont.c:195-198 | There is no layout if and only if no byte is mapped, and then there are no extents and no objects. |
| Requests.ReleaseInode | incont.c:195-222 | The inode is marked deleted exactly if it has no references, no mapped byte and no shared base. |
| Requests.DeleteInode | incont.c:225-264 | All objects are removed, the tree and the object map become empty, and the inode is released unless it is referenced. |
| Requests.Serve | inserver.c:328-616 | The reply is the one that conditions on the state before it give; each request changes size, byte map, version, references and flags as the step says; every assertion, those of the final print_inode included, holds if and only if the request is no clone or its list fits and stands, and then all structures are well formed; an inode to be freed passes the assertions of free_inode; a READ_LAYOUT sends a list that is faithful to the byte map for a clone source, and reads plainly otherwise. |
| Requests.Live | inserver.c:328-619 | From creation on, any sequence of requests is served up to the first one that trips an assertion, which is exactly the first clone whose list does not fit and stand; each is answered as the state it finds says; if none trips, the layout is well formed and the inode in the state the sequence of steps gives. |
| Requests.StoppedRun | inserver.c:328-619 | Two writes and a clone whose list fits: the server stops at the third request. |
| Requests.SafeRequest | inserver.c:328-619 | No request but a clone whose list has an entry at the end of its range can trip an assertion. |
| Lives.RefsLaw | inserver.c:595-610 | Until it is marked deleted, an inode has as many references as opens less unrefs, cut at 0. |
| Lives.UsedStays | inserver.c:585-592 | In any run a deletion after more opens than unrefs is answered IS_USED, and nothing changes. |
| Lives.FileLaw | inserver.c:328-610 | In any run the file is what the edits among the requests make of an empty one, and the version counts writes, truncations and clones. |
| Lives.SharedLaw | inserver.c:357-374 | In any run an inode is shared if and only if some READ_LAYOUT for a clone met a hole and no removal of the base came since. |
| Lives.DeletedLaw | incont.c:195-222 | In any run an inode is marked deleted exactly from the first removal, deletion or unref on that leaves no reference, no mapped byte and no shared base. |
| Lives.LifeOf | inserver.c:328-619 | On the heap, from creation on: answers, file, version, references, shared base and mark of an inode after any sequence of requests, told by the requests alone. |
| Backups.GetInodeAll | incont.c:1044-1069 | The inode's attributes, its number of extents and exactly that many extents in file order are written. |
| Backups.DoBackup | incont.c:1071-1104 | The stream holds every inode that is not deleted, in order. |
| Backups.RestoreOne | inserver.c:654-691 | Reading one inode back consumes exactly its items and gives the same number, size, flags and byte map; the print_inode that follows passes. |
| Backups.DoRestore | inserver.c:638-693 | The whole stream is consumed; inode_map then holds the saved inodes, each under its own number, in the order of the stream, and no others. |
| Backups.Container.CreateInode | incont.c:109-152 | An inode of that number that is not deleted is returned as it is; otherwise a new one, empty and without flags, takes its place in inode_map. |
| Backups.BackupAndRestore | inserver.c:638-693 | Backup followed by restore into an empty server gives a server that has exactly the numbers of the inodes that were not deleted, in the same order, each inode with the size, flags and byte map of the one saved; the version grows by one per extent. |
| WorkerPool.StepKeeps | inserver.c:172-314 | Every step of every thread keeps the invariant. |
| WorkerPool.ListsKept | inserver.c:214-232 | Work queue and free list stay two null-ended lists through one `next` field, and wqtail is the last entry whenever the queue is not empty, so a stale wqtail is never linked through. |
| WorkerPool.PartitionKept | inserver.c:172-232 | The 128 entries stay partitioned among the free list, the queue and the hands of the threads. |
| WorkerPool.FifoKept | inserver.c:222-235 | The jobs answered QUEUED are the dequeued ones, the queued ones and the acceptor's, in this order. |
| WorkerPool.TicketsKept | inserver.c:304-309 | A busy worker serves the job of a dequeue of its own, though entries are read and recycled outside the queue's lock. |
| WorkerPool.AccountsKept | inserver.c:304-616 | Each dequeue is in service by one worker or was served once with its own job, and not both. |
| WorkerPool.SignalsKept | inserver.c:226-235 | While an unsignalled worker waits, the queue is no longer than the number of workers on their way. |
| WorkerPool.DrainingKept | inserver.c:241-248 | Workers exit only after the shutdown flag is set and the queue is empty. |
| WorkerPool.NoLostWakeup | inserver.c:292-306 | After any run: while an unsignalled worker waits, as many workers are on their way as jobs are queued; with a job queued some worker is awake. |
| WorkerPool.ExactlyOnce | inserver.c:204-235 | After any run: the dequeued jobs are the first of those answered QUEUED, in order; each dequeue is in service by one worker or was served once, with its own job; every entry of the pool is in exactly one place, queue, free list or one pair of hands; and every job that arrived was answered QUEUED or refused, in order of arrival, or is in hand. |
| WorkerPool.ArrivalsLaw | inserver.c:204-235 | After any run: the jobs that arrived are those answered QUEUED and those refused, each in order of arrival, and then the one the acceptor has in hand, if any. |
| WorkerPool.RefusedExactly | inserver.c:204-220 | A job is answered SERVER_BUSY if and only if the free list is empty; otherwise it is the one that goes into an entry. |
| WorkerPool.DrainedAtEnd | inserver.c:239-249 | When the acceptor is done, every worker has exited, every job that arrived was refused or answered QUEUED, every one of the latter was served exactly once, and all entries are free. |
| WorkerPool.Progress | inserver.c:172-314 | No reachable state is stuck: with a job queued or the acceptor neither waiting for a client nor done, some thread can move. |
| WorkerPool.DequeuedInTime | inserver.c:292-306 | From any reached state on, a job of a queue of length k is dequeued before the workers have taken 6 k + 24 steps, whatever the scheduler, the clients and spurious wake-ups do. |
| WorkerPool.ServedInTime | inserver.c:304-616 | A worker that has dequeued a job has served it after four more steps of its own at most. |
| WorkerPool.ShutdownEnds | inserver.c:239-249 | After the broadcast a number of steps known beforehand remains, however the threads are scheduled. |
| InodeMaps.StepKeeps | incont.c:109-192 | Every step of every thread keeps the invariant of table, inodes and threads. |
| InodeMaps.NoneFreedInUse | incont.c:155-192 | After any run: no thread has an inode that was freed, and an inode is freed only once, when it is marked deleted, out of the table and with no other thread. |
| InodeMaps.NoneForgotten | inserver.c:625-631 | After any run: an inode that is marked deleted is freed or has a thread that is to free it. |
| InodeMaps.OneLive | incont.c:109-152 | After any run: at most one inode of a number is not deleted, and the table maps the number to it. |
| InodeMaps.CreationGets | incont.c:109-152 | After any run: a creation gets an inode of the number asked for that is not deleted, is told ALREADY_CREATED exactly if there was one, and otherwise gets a new one. |
| InodeMaps.RequestGets | incont.c:155-167 | After any run: a request gets an inode of the number it names, the one that is not deleted if there is one; otherwise it is told INVALID_INO and there is none. |
| InodeMaps.DeletedStays | inserver.c:335-337 | From the mark on, every request that holds the inode is answered IS_DELETED. |
| InodeMaps.UnknownUntilCreated | inserver.c:321-327 | A number that is not in the table is answered INVALID_INO until it is created. |
| InodeMaps.FreedThenUnknown | incont.c:170-180 | Once free_inode has taken an inode out of the table, its number is answered INVALID_INO until it is created again. |
| InodeMaps.UnmapExact | incont.c:175-180 | free_inode takes its inode out of the table, so that the number is unknown, if and only if no creation of the number has replaced the inode and left another one; otherwise it deletes from the table an inode that is not in it. |
| InodeMaps.SoundWithoutReplacing | incont.c:109-118 | If no creation ever finds a deleted inode, nothing is deleted from the table that is not in it. |
| InodeMaps.ReplacedInBetween | incont.c:109-180 | A run of two threads in which a creation comes between the mark and free_inode, and the inode is deleted from the table twice. |
| MapServers.MapServer.Request | lpmapser.c:184-227 | On the hash table, with any hash function: get, put if absent and delete act on the table as on the finite map from numbers to numbers it represents, and give the entry in force before. |
| MapServers.TakePut | lpmapser.c:192-210 | A put sent by an inode server leaves the mapping and gives the answer of the protocol's step. |
| MapServers.TakeDelete | lpmapser.c:211-221 | A delete sent for a released inode leaves the mapping of the protocol's step, and the entry it removes is that inode's own. |
| Ownership.OrLowBits | incont.c:21-22 | Setting the low k bits of a number by a bitwise or gives the last number with the same bits above. |
| Ownership.RangesApart | incont.c:15-28 | The number ranges of different nodes, from (nodeid << 32) + 1 to that number with its low half set, do not meet and stay within 64 bits. |
| Ownership.StepKeeps | incont.c:36-106 | Every message and every step of every server keeps the invariant. |
| Ownership.PutAgreed | lpmapser.c:192-210 | A put takes effect: the base becomes the server's, or stays another's; the answer is the number the base now maps to, and it is the server's own if and only if the base was not mapped. |
| Ownership.DeleteAgreed | incont.c:202-220 | A delete takes effect: it removes the released inode's own mapping and no other. |
| Ownership.OneOwner | incont.c:72-96 | After any run: at most one live inode per base inode, over all servers, and its server was asked for that base. |
| Ownership.BasesLaw | incont.c:72-96 | After any run: the base of each inode that is live or being released at a server is one that server was asked to create, and that of a creation under way is the one asked for last. |
| Ownership.ToldLaw | lpmapser.c:192-210 | After any run: the number a server was told is what its base mapped to right after its put. |
| Ownership.CreatedLaw | incont.c:84-98 | A creation that ends enters a new number for the base asked for, or reports that the base has an inode, with the number it mapped to right after the put. |
| Ownership.MappingNamesOwner | incont.c:195-222 | After any run before the backup at shutdown: a live inode, or one whose release is under way, is the one its base maps to. |
| Ownership.MappingIsHeld | lpmapser.c:184-227 | After any run before the backup at shutdown: every mapping names an inode some server holds. |
| Ownership.NumbersUnique | incont.c:72-98 | After any run: no inode number was given out twice, and 0 never. |
| HashMath.MaskIsMod | uthash.h:430-433 | Masking with num_buckets - 1 is the remainder. |
| HashMath.CeilFormula | uthash.h:919-921 | The shift-and-mask formula is the quotient rounded up. |
| HashIndex.PutInBucket | uthash.h:840-851 | An added item is in the bucket of its hash value, counts are chain lengths, and the other chains are untouched. |
| HashIndex.TakeFromBucket | uthash.h:862-875 | A deleted item leaves its chain and no other changes. |
| HashIndex.Redistribute | uthash.h:922-942 | Doubling moves every item to its bucket of the larger table, and nonideal_items is the summed excess of the chains over the ideal length. |
| HashTables.Table.ExpandBuckets | uthash.h:906-954 | The table doubles with all items in their buckets; the ideal chain length is the rounded-up share of a bucket; ineff_expands counts the poor doublings in a row, exactly, and two of them stop further ones. |
| HashTables.Table.Index | uthash.h:840-851 | An item goes to the head of its bucket, and the table doubles exactly if the chain has then grown to its limit and doubling has not been stopped. |
| HashTables.Table.Find | uthash.h:156-173 | Lookup is exactly lookup in the finite map, for any hash function. |
| HashTables.Table.Add | uthash.h:396-433 | An added item is last in order and new in the map, whether or not the table is made or doubles. |
| HashTables.Table.Delete | uthash.h:450-477 | A deleted item leaves the order and the map; the last one takes the table with it. |
| HashTables.Table.Keys | uthash.h:1127-1134 | Iteration visits the items in order of insertion. |
| HashTables.Table.Drain | uthash.h:1127-1134 | Iteration that deletes the current element in each round visits every item once, in order of insertion, and leaves the table empty. |
| HashTables.Table.Count | uthash.h:1136-1138 | The item count is the size of the finite map. |
| HashTables.MapLess | uthash.h:450-477 | Dropping an item from the list drops its key from the map. |
| HashTables.Replay | uthash.h:396-477 | Any sequence of insertions and removals of keys leaves the keys and the order of a plain list. |

## Left out

- Sockets and byte transfer: streams are sequences of records; connections and allocation succeed.
- Messages to data object servers (ADD_LINK, REMOVE_LINK, MOVE_SHARED_BASE and the draining ones): effects outside the inode; they are taken to succeed and not recorded.
- The read-write locks `alive`, `rwlock` and `imlock` within requests: requests are atomic. `InodeMaps` splits a request at `imlock` and `alive`. The source takes a lock where a release is due (inserver.c:437) and takes `alive` twice when freeing (incont.c:182, 187).
- Requests.DeletedForGood: with requests taken as atomic an inode marked deleted is freed at the end of the same request (inserver.c:629-630), so that a later one finds nothing in inode_map; IS_DELETED is the answer to requests that had acquired it before, as InodeMaps says.
- InodeMaps.UnmapExact: what HASH_DELETE does to the table when its inode is not in it is not modelled beyond recording that it happened.
- Wrap-around of `off + len`: offsets are unbounded naturals, except in pado_read, whose object offsets are computed modulo 2^64.
- Times (atime, mtime), debug printing and option parsing: no properties.
- RefLists.ReleaseExtent: a triggered release calls remove_dobject on an object whose list is already empty, so the model goes straight to removing the object from do_map.
- Surgery.RemoveInner: the two-children case is written as splicing the predecessor out and substituting it for the target; the resulting stores are the source's.
- Files.PadoWrite: the size is set before the extent is created, not between creating and placing it; neither step reads what the other writes.
- Requests.Serve: READ_INODE_WHOLE, READ_DOBJ, RELEASE_DRAIN_LOCK and GET_INODE_DOBJ are not among the requests; they change at most the drain lock flag.
- CREATE_OPEN_INODE with flags 0, which sets an inode's flags from the wire (inserver.c:562-570): not part of the life of an inode here.
- Backups.BackupAndRestore: the build without a mapping server, which writes inode numbers, is modelled; inode_map is a finite map with the order HASH_ITER visits it.
- Backups.DoRestore: a stream that repeats a number, which no backup writes, is not covered; the source then writes both layouts into one inode.
- WorkerPool.DequeuedInTime: the bound counts steps of the workers; that the scheduler lets workers run at all is not stated, since no fairness is assumed.
- Ownership.MappingNamesOwner: under WITH_MAPSERVER do_backup also sends a delete for every live inode (incont.c:1084-1095), so the runs end before the backup at shutdown.
- Ownership.OneOwner: servers do not restart and node ids are distinct; a restarted server would give out its numbers again.
- HashTables.Table.Add: `num_buckets` does not wrap at 2^32, and failing allocation, the Bloom filter, the hash functions, sorting and selecting are not modelled.
- `dos.c`, `testlocal.c`, `testremote.c`, `bench/`, `module/` and `wrapfs/`: not part of this model.
