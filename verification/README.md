# Verified models of libpeak's cores

libpeak is a C library of network data structures. This project models the parts of it that keep
state by delicate means and proves what they are for:

- **The red-black tree** of `include/sys/tree.h`, with its rotations, colour loops and removal on
  nodes with left, right and parent links (`TreeShape.dfy`, `RedBlackTree.dfy`, `TreeWalk.dfy`), and
  geoconv and the locator on top of it (`Geolocation.dfy`). A ghost tree and a ghost map of the
  links follow every assignment; positions in the tree are a subtree and the context around it.
  `PointTree.dfy` states its operations for trees of numbers, as the other cores use them.
- **The stream page allocator** of `lib/peak_stream.c`: free pages, streams as records over pages of
  memory, relocation, and release with wrapping sizes (`StreamModel.dfy`, `Streams.dfy`). Each call
  is tied to one step of a pool of pages, and the run theorems are about all sequences of steps.
- **The paged sorted list and the string search** of `include/peak_page.h`, `lib/peak_string.c` and
  `include/peak_stash.h` (`PageList.dfy`, `StringModel.dfy`, `StringHistory.dfy`, `StringSearch.dfy`).
  The tree is tied to the table of its history of additions, failed ones included.
- **The barrier** of `include/peak_sys.h` as a protocol of steps under its mutex (`Barrier.dfy`).
- **The flow tracker** and the flowsplit tool (`TrackModel.dfy`, `Tracker.dfy`, `Flowsplit.dfy`).
- **MD5 streaming**, the **rolling hash**, the **PCAP writer and reader** and the **token bucket**
  (`Md5.dfy`, `RollingHash.dfy`, `Pcap.dfy`, `TokenBucket.dfy`).

`dafny verify dfyconfig.toml` checks the project.

Six promises one might expect do not hold of the code as it is. Each is kept as the code has it, with a
counterexample and the exact condition:

- A claim whose size wraps when it is rounded up to a page succeeds and yields a stream without pages
  (`StreamModel.OverflowExample`). `StreamModel.AlignIsPages` says exactly when the page count is right.
- Growing a stream whose data starts in the middle of a page can break the allocator or move the start
  of the data (`StreamModel.UnsafeExample`, at the end of a run). `StreamModel.GrowVerdict` says exactly
  when a growth goes well, `StreamModel.StepVerdict` the same for every call, and `StreamModel.RunExact`
  for whole runs: a run goes well up to any point if and only if all its calls so far were safe. `Safe`
  and `GrowSafe` compare numbers that the caller could compute before the call.
- A stream that ends inside a page takes the page out of circulation (`StreamModel.LeakExample`, at the
  end of a run). `StreamModel.Conservation` names the lost pages of every call, and in runs of whole
  pages there are none (`StreamModel.WholeRun`).
- At the last byte of a text the string search follows only the first lookup that finds a node, and even
  an addition that failed can have left such a node (`StringHistory.ShadowExample`).
  `StringHistory.HistoryExact` says exactly which occurrences are reported, in terms of the additions.
- A result of 1 from `barrier_wait` gives no exclusion, because another thread may join
  (`Barrier.SoloExample`). With two or more registered threads it does (`Barrier.SoloHold`,
  `Barrier.HoldRun`).
- The first refill of a large token bucket by a millisecond clock overflows 64 bits
  (`TokenBucket.OverflowExample`). `TokenBucket.Fits64` says exactly when the arithmetic is exact.

`lib/peak_stream.3` says that a claim returns non-zero when relocation fails; the code returns 0 and
the model follows the code.

## Model

| member | source | states |
|---|---|---|
| TreeShape.Compare | lib/peak_locate.h:305-318 | For any two intervals: negative exactly if the first lies before the second, zero exactly if they overlap, positive otherwise |
| TreeShape.RedUncle | include/sys/tree.h:408-432 | Recolouring moves the one red-red edge two levels up and keeps black heights |
| TreeShape.BlackUncleLeft | include/sys/tree.h:417-424 | Up to two rotations end the red-red edge when the uncle on the right is black |
| TreeShape.BlackUncleRight | include/sys/tree.h:433-440 | The mirror image |
| TreeShape.RedSibling | include/sys/tree.h:452-490 | A red sibling can be rotated away without changing the missing black height |
| TreeShape.BlackNephews | include/sys/tree.h:459-497 | Two black nephews: the sibling turns red and the deficit moves up |
| TreeShape.RedNephewLeft | include/sys/tree.h:467-483 | A red outer nephew ends the deficit: the repaired subtree has full black height and no red-red edge with its parent |
| TreeShape.RedNephewRight | include/sys/tree.h:499-515 | The mirror image |
| TreeShape.SuccessorOrder | include/sys/tree.h:531-569 | Putting the in-order successor in the place of a removed node takes exactly that node out of the in-order sequence |
| TreeShape.HeightBound | include/sys/tree.h:402-520 | A red-black tree of n nodes has height at most 2 lg(n + 1): 2^height <= (n + 1)^2 |
| RedBlackTree.RBTree.RotateLeft | include/sys/tree.h:337-355 | On the links: the subtree is rotated, everything around it and all parent links stay right |
| RedBlackTree.RBTree.RotateRight | include/sys/tree.h:357-375 | The mirror image |
| RedBlackTree.RBTree.InsertColor | include/sys/tree.h:402-444 | From a tree with at most one red-red edge at elm: a red-black tree with the same in-order sequence |
| RedBlackTree.RBTree.Insert | include/sys/tree.h:590-618 | A node that overlaps is returned exactly if there is one, and then nothing changes; otherwise the in-order sequence gains exactly elm and the tree stays sorted, linked and red-black |
| RedBlackTree.RBTree.Find | include/sys/tree.h:621-634 | An overlapping node, or none exactly if none overlaps |
| RedBlackTree.RBTree.Successor | include/sys/tree.h:531-535 | The leftmost node of the right subtree |
| RedBlackTree.RBTree.RemoveColor | include/sys/tree.h:446-520 | From a tree short of one black at elm: a red-black tree with the same in-order sequence |
| RedBlackTree.RBTree.Remove | include/sys/tree.h:522-588 | For any member: the in-order sequence loses exactly that node; the tree stays sorted, linked and red-black |
| RedBlackTree.RBTree.LowHeight | include/sys/tree.h:402-618 | A tree of n nodes after any operations has height at most 2 lg(n + 1) |
| TreeWalk.MinMax | include/sys/tree.h:701-716 | The first or the last node of the in-order sequence |
| TreeWalk.Leftmost | include/sys/tree.h:661-664 | The first node of a subtree the walk has not reached, over the left links that are still intact |
| TreeWalk.Climb | include/sys/tree.h:665-675 | The nearest ancestor behind the node, over parent and right links only |
| TreeWalk.Next | include/sys/tree.h:658-677 | The in-order successor, although the left links of the nodes already visited (and of elm) are lost: such a link may hold anything but the node's own right child |
| PointTree.Insert | lib/peak_stream.c:311-322 | On a tree of numbers: a duplicate exactly if the number is there; the numbers ascend and gain exactly the new one |
| PointTree.Find | lib/peak_stream.c:133-134 | The node of a number exactly if the number is in the tree |
| PointTree.Remove | lib/peak_stream.c:115-120 | The ascending numbers lose exactly the one of the node |
| PointTree.Min | lib/peak_stream.c:156-157 | The node of the least number |
| PointTree.Next | lib/peak_stream.c:101-101 | The node of the next larger number |
| Geolocation.Pool.Put | include/peak_prealloc.h:65-73 | The node heads the free list, its left link now being the list link |
| Geolocation.WalkOn | bin/geoconv/geoconv.y:144-153 | Returning a node to the pool and then asking for its successor yields the in-order successor |
| Geolocation.Finalise | bin/geoconv/geoconv.y:112-156 | Every record is written exactly once and in ascending order, and all nodes are back in the pool, over left links that the pool has overwritten |
| Geolocation.Entry | bin/geoconv/geoconv.y:74-93 | An entry with a known location is refused as one too many exactly if the pool is used up, and as a duplicate exactly if it then overlaps an entry already held |
| Geolocation.AcceptStep | bin/geoconv/geoconv.y:74-93 | Accepting entries one by one is accepting the whole list: pairwise apart and no more than the pool holds |
| Geolocation.ReadEntries | bin/geoconv/geoconv.y:69-94 | A list of entries is accepted exactly if the kept ones are pairwise apart and fit the pool; the tree then holds exactly those |
| Geolocation.Convert | bin/geoconv/geoconv.y:165-200 | The table holds the kept entries, no more and no fewer, in ascending order, and its header counts them; a refusal names the reason of the first entry refused |
| Geolocation.Locate | lib/peak_locate.c:290-313 | The location of the interval that contains the address, LOCATE_XX if none does, for any choice of probes |
| Geolocation.ConvertAndLocate | bin/geoconv/geoconv.y:74-156 | For every accepted list the lookup gives the location of the one entry that contains the address, or LOCATE_XX |
| StreamModel.AlignIsPages | lib/peak_stream.c:225-238 | Rounding up to a page and dividing is the number of pages needed if and only if the pages lie within the range of size_t |
| StreamModel.PagesForWraps | lib/peak_stream.c:225-226 | Where rounding up wraps, the code computes a page count of zero |
| StreamModel.BlockedFits | lib/peak_stream.c:236-258 | A stream that is refused growth in place stays within the range of size_t with its new length |
| StreamModel.BlockedExact | lib/peak_stream.c:123-148 | Growth in place is refused exactly if one of the pages still needed behind the stream is taken |
| StreamModel.GrowExact | lib/peak_stream.c:235-271 | What a growth in place makes of the record and the free pages, and when it is safe, counted in pages |
| StreamModel.CutRun | lib/peak_stream.c:108-121 | Unhooking consecutive nodes takes an interval out of the set of free pages |
| StreamModel.FewStreams | lib/peak_stream.c:182-200 | Streams and free pages together are no more than the pages of the pool, so a reference is always left |
| StreamModel.GrowVerdict | lib/peak_stream.c:235-271 | A growth in place keeps the allocator invariant, the place of the data and an honest length if and only if it is safe |
| StreamModel.UnsafeExample | lib/peak_stream.c:236-269 | For pages of any size: after a claim and a release, growing ten bytes in the middle of a page by one byte loses a page and the start of the data |
| StreamModel.OverflowExample | lib/peak_stream.c:159-179 | A claim of SIZE_MAX bytes with pages of 64 bytes yields a stream without pages on a page that stays free, and uses up the references |
| StreamModel.GrownBytes | lib/peak_stream.c:246-269 | Grown in place, the old bytes stay the first bytes |
| StreamModel.ShrunkOk | lib/peak_stream.c:330-371 | A released stream that is not empty still owns the pages its data lies on; an empty one keeps a page back exactly if it ended inside it |
| StreamModel.ShrunkBytes | lib/peak_stream.c:330-371 | Releasing drops exactly the first bytes |
| StreamModel.TurnTest | lib/peak_stream.c:344-360 | The loop test in wrapping arithmetic holds for exactly (offset + size) / page size turns |
| StreamModel.MopUp | lib/peak_stream.c:348-364 | After the turns, whatever wrapped, the buffer has moved by size and the length is shorter by size |
| StreamModel.LeakShrink | lib/peak_stream.c:348-370 | A release loses a page for good exactly if the stream ends inside it |
| StreamModel.LeakExample | lib/peak_stream.c:366-369 | For pages of any size: after a claim and its release a page is neither free nor owned |
| StreamModel.MoveIsNewAndDrop | lib/peak_stream.c:294-305 | A relocation is a fresh claim followed by the release of the whole old stream |
| StreamModel.ApplySound | lib/peak_stream.c:202-371 | Every safe call keeps free pages and streams pairwise disjoint, and every stream the owner of a page |
| StreamModel.StepVerdict | lib/peak_stream.c:202-371 | For every call the code can make, wrapping sizes and growths from mid-page included: it goes well if and only if it is safe |
| StreamModel.Conservation | lib/peak_stream.c:202-371 | Free, owned and lost pages always add up; each safe call loses exactly the pages in which a stream ended |
| StreamModel.RunExact | lib/peak_stream.c:182-371 | A run of any calls goes well up to any point if and only if all calls so far were safe |
| StreamModel.RunSound | lib/peak_stream.c:182-371 | In every state of every run of safe calls, free pages and streams are pairwise disjoint, every stream owns a page, and a reference is left for every free page |
| StreamModel.WholeRun | lib/peak_stream.c:70-371 | If all calls are safe and all sizes page multiples, free and owned pages partition the pool in every state of every run |
| Streams.StreamPool.constructor | lib/peak_stream.c:383-432 | All pages are free and there is no stream |
| Streams.StreamPool.Init | lib/peak_stream.c:383-432 | Which sizes are refused, and the state otherwise |
| Streams.StreamPool.Probe | lib/peak_stream.c:70-106 | The number of consecutive free pages from a node on, up to the limit, and not one less |
| Streams.StreamPool.Unhook | lib/peak_stream.c:108-121 | Exactly n pages from the node on leave the tree; stream memory is untouched |
| Streams.StreamPool.Reclaim | lib/peak_stream.c:123-148 | The pages behind a stream are taken exactly if all of them are free |
| Streams.StreamPool.ClaimRun | lib/peak_stream.c:150-180 | The lowest run of enough free pages, or an error exactly if there is no run; for a count of zero the first free page, which stays free |
| Streams.StreamPool.GetRef | lib/peak_stream.c:182-200 | A reference that is not in use; the pool of references cannot be empty |
| Streams.StreamPool.ReleasePage | lib/peak_stream.c:311-322 | The page joins the free pages; it was not among them, so the panic is unreachable |
| Streams.StreamPool.Fresh | lib/peak_stream.c:209-274 | For every size: a stream on the lowest run that is long enough, or nothing exactly if there is none; a size that wraps yields a stream without pages, and exactly then the pool is no longer sound |
| Streams.StreamPool.Grow | lib/peak_stream.c:235-274 | For every size: refused with no change exactly if the next pages are taken; otherwise sound, in place and of the right length if and only if safe |
| Streams.StreamPool.ReleaseLoop | lib/peak_stream.c:344-364 | In wrapping arithmetic: exactly the whole pages in front go back, and the record is that of the shortened stream |
| Streams.StreamPool.Release | lib/peak_stream.c:330-371 | Exactly the first size bytes are dropped, the others stay in order, no other stream changes although headers are written into freed pages |
| Streams.StreamPool.Copy | lib/peak_stream.c:296-302 | The new stream starts with the bytes of the old one; nothing else changes |
| Streams.StreamPool.Relocate | lib/peak_stream.c:289-308 | A blocked stream moves with all its bytes, exactly if a long enough run is free; all other streams keep theirs |
| Streams.StreamPool.Claim | lib/peak_stream.c:276-309 | For every size: a step of the pool, refused with no change exactly if there is no room; a safe one keeps all bytes in order and all other streams, an unsafe one breaks the pool, moves the data or cheats on the length |
| PageList.Seek | include/peak_page.h:88-127 | The element with the key, or the one place between all smaller and all larger ones |
| PageList.Find | include/peak_page.h:62-86 | An element with the key exactly if there is one |
| PageList.Place | include/peak_page.h:135-175 | Splitting and shifting keep the order of elements, with the biased sizes of both halves |
| PageList.HalfFull | include/peak_page.h:139-160 | Whichever half gets the element, both end up between ceil(n/2) and n, for every n >= 1 |
| PageList.StaysFilled | include/peak_page.h:139-160 | With two or more pages, every page keeps between ceil(n/2) and n elements |
| PageList.Insert | include/peak_page.h:88-177 | The strictly sorted chain gains exactly the new element; an equal one is returned with no change; it fails, changing nothing, exactly if a new key meets a full page (or no page) and there is no memory |
| StringModel.EscapeRoundTrip | lib/peak_string.c:187-203 | A pattern made by escaping every question mark and backslash parses to its bytes, folded if case is ignored |
| StringModel.LiteralRoundTrip | lib/peak_string.c:187-203 | With case in mind, an escaped literal parses back to exactly itself |
| StringModel.RenderRoundTrip | lib/peak_string.c:187-203 | Every string of wildcards and bytes has a pattern that parses to exactly it |
| StringModel.LoneBackslash | lib/peak_string.c:191-194 | A backslash before anything but a question mark or a backslash, and at the end, stands for itself |
| StringModel.NoCaseTable | lib/peak_string.c:29-57 | The 26 tokens from 257 on, one for both cases of a letter, and none for any other byte |
| StringSearch.FlagsMean | lib/peak_string.c:215-223 | A left pattern is found at the start of the text, a right one at its end, one with both flags is the whole text |
| StringModel.AlternativesFit | lib/peak_string.c:109-150 | The three lookups are exactly the tokens that stand for the byte |
| StringModel.FoldFits | lib/peak_string.c:29-57 | A folded pattern byte stands for exactly the bytes that are equal up to case |
| StringModel.SearchExact | lib/peak_string.c:102-151 | The search below a node finds exactly the patterns below it that match from there, up to the stop at the last byte |
| StringModel.AllExact | lib/peak_string.c:72-171 | An occurrence is reported if and only if it is genuine in wildcard, case and anchoring, is not shadowed at the last byte, and, if empty, is at the start |
| StringModel.InnerComplete | lib/peak_string.c:102-171 | Every occurrence of a non-empty pattern that ends before the last byte is reported |
| StringModel.PlainComplete | lib/peak_string.c:102-171 | In a dictionary without wildcards and folding, a non-empty pattern is reported exactly where the text has its bytes, the last byte included |
| StringModel.AllOnce | lib/peak_string.c:163-170 | No occurrence is reported twice for one start position |
| StringModel.AllOrder | lib/peak_string.c:72-171 | Occurrences are reported by start position; at one position a pattern before its extensions, and patterns that part in the order byte, wildcard, letter; for one pattern by method |
| StringModel.OneListing | lib/peak_string.c:72-171 | There is one way to list events in that order, so the reported events determine the reports |
| StringModel.StashLeast | include/peak_stash.h:47-54 | A stash of size n ends up with the results of the n least reported occurrences |
| StringHistory.FirstResultMeaning | lib/peak_string.c:225-229 | The stored result is that of the first successful addition with a non-zero result |
| StringHistory.GrownExact | lib/peak_string.c:205-212 | A walk along a pattern adds nodes for exactly its prefixes, without results |
| StringHistory.TableExact | lib/peak_string.c:173-230 | After any history of attempts: the first result for every pattern and anchoring, and nodes for exactly the prefixes that the attempts reached |
| StringHistory.FailedSame | lib/peak_string.c:208-212 | A failed addition changes no result |
| StringHistory.HistoryExact | lib/peak_string.c:72-230 | In terms of the additions alone: an occurrence is reported if and only if a non-zero result was added for its pattern, it is genuine, and at the last byte no attempt made a node for an earlier lookup |
| StringHistory.PlainHistory | lib/peak_string.c:187-230 | If all patterns are bytes without wildcards and folding, so is the whole table |
| StringHistory.PlainSearch | lib/peak_string.c:72-230 | Over any history of such patterns, a non-empty one is reported exactly where the text has its bytes, the last byte included |
| StringHistory.Shadowed | lib/peak_string.c:116-131 | Whenever an attempt made a node for a byte, the pattern ? is not reported in the text of that byte |
| StringHistory.ShadowedLetter | lib/peak_string.c:129-131 | Whenever an attempt made a node for the wildcard, a letter without case is not reported in the text of that letter |
| StringHistory.ShadowExample | lib/peak_string.c:116-131 | With the patterns a and ?, or after ab could not be added, the text a does not yield ? |
| StringSearch.Stash.Push | include/peak_stash.h:47-54 | The value is kept unless the stash is full |
| StringSearch.Token | lib/peak_string.c:187-203 | The next token of the pattern and where the rest begins |
| StringSearch.LinkedInsert | lib/peak_string.c:205-212 | A new child keeps every node the child of the node it extends, and the only one for its tokens |
| StringSearch.Strings.Reach | lib/peak_string.c:205-212 | The child for a token, made with empty results if needed; on failure nothing changes |
| StringSearch.Strings.Walk | lib/peak_string.c:187-213 | The node for the tokens of the pattern, or the prefix where memory ran out; exactly the prefixes walked have become nodes |
| StringSearch.Strings.Add | lib/peak_string.c:173-230 | Every call is an attempt in the history, complete if it finds its memory, and the tree is the table of the history; the first result for the pattern is returned, zero on failure |
| StringSearch.Strings.MatchNode | lib/peak_string.c:72-100 | The results of a node that its anchoring admits go to the stash, in order |
| StringSearch.Strings.FindBelow | lib/peak_string.c:102-151 | The recursive search pushes exactly the occurrences of the specification, in order |
| StringSearch.Strings.Find | lib/peak_string.c:153-171 | The stash gets the results of all reported occurrences, and a full one holds a prefix of that list |
| Barrier.InvNext | include/peak_sys.h:71-154 | Every step keeps: count is the number of blocked threads, threads that of the registered ones less one modulo 2^32, at most one holder, and a holder of two or more is alone |
| Barrier.WaitExact | include/peak_sys.h:93-109 | A thread blocks in its wait exactly if another registered thread does not; no other thread is touched |
| Barrier.WakeOutOfTurn | include/peak_sys.h:116-119 | A wake by a thread that is not alone releases nobody and leaves the count |
| Barrier.WakeInTurn | include/peak_sys.h:116-119 | A wake by a thread that is alone releases all blocked threads and only those |
| Barrier.ReleasedBy | include/peak_sys.h:71-154 | A blocked thread is released by a step if and only if the step is the wake of a thread that is alone |
| Barrier.OthersStay | include/peak_sys.h:71-154 | Every other step leaves all threads but its own as they are |
| Barrier.RunReleased | include/peak_sys.h:71-154 | In every run, whoever was blocked and no longer is was released when all other registered threads had arrived |
| Barrier.Safety | include/peak_sys.h:71-154 | In every run from an empty barrier the registered threads are never all blocked, at most one holds a result, and with a result of two or more all others are blocked |
| Barrier.HoldStays | include/peak_sys.h:93-154 | Under a result of two or more nobody else can do anything, join and leave are refused, and the wake releases every blocked thread |
| Barrier.HoldRun | include/peak_sys.h:93-154 | Any run without the holder's wake leaves the barrier as it is |
| Barrier.SoloHold | include/peak_sys.h:93-138 | A lone holder stays alone under a join if and only if two or more threads are registered |
| Barrier.SoloExample | include/peak_sys.h:93-138 | A run in which a second thread joins and runs beside the holder of the result 1 |
| Barrier.RoundFinishes | include/peak_sys.h:93-122 | Every run of waits and returns, in any order and by any threads, comes to a holder of the number of registered threads within a bounded number of steps |
| Barrier.RoundGoesOn | include/peak_sys.h:93-109 | As long as a thread is registered, one can wait or return |
| Barrier.Shared.constructor | include/peak_sys.h:71-80 | No thread is registered |
| Barrier.Shared.WaitStep | include/peak_sys.h:93-109 | The thread blocks exactly if it is not alone; otherwise its result is the number of registered threads |
| Barrier.Shared.Return | include/peak_sys.h:101-108 | The return from a wait that was broadcast to |
| Barrier.Shared.WakeStep | include/peak_sys.h:111-122 | From a thread that is alone, nobody stays blocked; from any other, the count and every other thread stay as they are |
| Barrier.Shared.JoinStep | include/peak_sys.h:124-138 | Refused exactly if a thread is blocked |
| Barrier.Shared.LeaveStep | include/peak_sys.h:140-154 | Refused exactly if a thread is blocked |
| TrackModel.TrackKey | lib/peak_track.h:34-42 | The endpoint with the lower address comes first |
| TrackModel.KeyExact | lib/peak_track.h:34-42 | Two packets share a key if and only if protocol and endpoints agree, in either direction for different addresses |
| TrackModel.KeyOrder | lib/peak_track.h:34-42 | The lower address comes first, and both endpoints are kept as they are |
| TrackModel.AfterSound | lib/peak_track.c:37-84 | Acquiring keeps one entry a key and no more entries than the capacity |
| TrackModel.RecencyMeaning | lib/peak_track.c:47-51 | The recency list has every key of the history once, ordered by its last use |
| TrackModel.LruRun | lib/peak_track.c:37-84 | After any history the tracker holds exactly the most recently acquired keys, so an eviction takes the least recently acquired one |
| TrackModel.FixedRun | lib/peak_track.c:54-58 | Without timeouts it holds the first keys ever acquired, each with its rank as an unchanging id, and refuses all others |
| TrackModel.RankStays | lib/peak_track.c:78-78 | A key keeps its rank for the rest of the history |
| TrackModel.AdmitsMeaning | lib/peak_track.c:46-64 | In terms of the history: a use adds an entry exactly if its key is not among the max most recent ones, or, without timeouts, if it is new and among the first max |
| TrackModel.IdsExact | lib/peak_track.c:78-78 | After any history, with timeouts or without: the next id is the number of admissions so far, and the id of every entry the number of admissions before its own, modulo 2^64 |
| TrackModel.IdsDiffer | lib/peak_track.c:78-78 | Among at most 2^64 admissions no two share an id |
| TrackModel.ThreeIds | lib/peak_track.c:37-84 | Three keys through a tracker of one flow get the ids 0, 1 and 2 |
| Tracker.Tracks.Init | lib/peak_track.c:86-105 | An empty tracker with all flows in the pool, refused exactly for no flows |
| Tracker.Tracks.Touch | lib/peak_track.c:46-52 | A found flow becomes the most recent one; ids and keys stay |
| Tracker.Tracks.Evict | lib/peak_track.c:59-62 | The oldest flow leaves tree and queue and is the free one |
| Tracker.Tracks.Admit | lib/peak_track.c:66-79 | The free flow gets the key and the next id in tree and queue; neither panic can happen |
| Tracker.Tracks.Acquire | lib/peak_track.c:37-84 | Refines the map of the least recently used flows; tree, queue and pool describe the same flows; refused with no change exactly when full, unknown and without timeouts |
| Flowsplit.PickedExact | bin/flowsplit/flowsplit.c:128-140 | A file holds a packet exactly if the packet was parsed and its flow belongs to the file |
| Flowsplit.PickedAscends | bin/flowsplit/flowsplit.c:128-140 | A file keeps the order of the trace |
| Flowsplit.SameFile | bin/flowsplit/flowsplit.c:26-47 | At every point of a run, packets of the same protocol with the same or swapped endpoints share their file |
| Flowsplit.SortedDealt | bin/flowsplit/flowsplit.c:128-140 | The files of a run hold every parsed packet once and in order, keep flows together, start with the first flow in file 0, and deal new flows in turn |
| Flowsplit.OneFlowEach | bin/flowsplit/flowsplit.c:128-140 | With no more flows than files, two packets share a file if and only if they belong to one flow |
| Flowsplit.Place | bin/flowsplit/flowsplit.c:26-47 | The id of the packet's flow, or none if the tracker refuses |
| Flowsplit.Split | bin/flowsplit/flowsplit.c:94-140 | Finishes exactly if the trace has no more flows than the tracker takes, and else stops at the first packet of one flow too many; either way every file has exactly its packets so far, dealt in turn |
| Md5.FoldAppend | contrib/libcompat/md5.c:66-98 | The block function folded over a message may stop anywhere and go on from the bytes left over |
| Md5.FoldFirst | contrib/libcompat/md5.c:78-92 | The first whole block goes through the block function first, and less than a block changes nothing |
| Md5.FoldLast | contrib/libcompat/md5.c:87-92 | A block behind whole blocks goes through the block function last |
| Md5.PaddedWhole | contrib/libcompat/md5.c:111-120 | A message padded by sections 3.1 and 3.2 of RFC 1321 is whole blocks |
| Md5.PaddedBytes | contrib/libcompat/md5.c:104-120 | The padded message byte by byte: the message, 0x80, zeros, and eight bytes that decode to the bit count modulo 2^64 |
| Md5.LittleEndianAt | contrib/libcompat/md5.c:26-40 | Byte i is the i-th digit to base 256, least significant first |
| Md5.LittleEndianBack | contrib/libcompat/md5.c:26-40 | Decoding gives the number back exactly if it fits the bytes |
| Md5.EncodedWords | contrib/libcompat/md5.c:122-125 | The digest is the four words one after the other, each read back from its bytes |
| Md5.InitialBytes | contrib/libcompat/md5.c:52-60 | The initial state is the 16 bytes that section 3.3 of RFC 1321 lists |
| Md5.Padding | contrib/libcompat/md5.c:114-119 | The bytes taken from the padding table and the count are the padding of RFC 1321 |
| Md5.Context.constructor | contrib/libcompat/md5.c:52-60 | The context of the empty message |
| Md5.Context.Blocks | contrib/libcompat/md5.c:87-92 | The loop folds all whole blocks and leaves the tail |
| Md5.Context.Update | contrib/libcompat/md5.c:66-98 | The context of a message becomes that of the message with the input behind it |
| Md5.Context.Final | contrib/libcompat/md5.c:104-127 | The digest of the padded message so far; the context is wiped |
| Md5.Hash | contrib/libcompat/md5.c:52-127 | However a message is cut into updates, the digest is the block function folded over the whole padded message |
| Md5.CoreFunctions | contrib/libcompat/md5.c:130-136 | The optimised F1 and F2 are F and G of section 3.4 of RFC 1321 |
| RollingHash.Turned | include/peak_hash.h:45-47 | The wide rotation by the window length modulo 32 is the narrow one repeated as often as the window is long |
| RollingHash.RotateDoubles | include/peak_hash.h:46-46 | Rotating doubles the word and carries the top bit around |
| RollingHash.HashShort | include/peak_hash.h:114-129 | The hash starts from zero, and that of one byte is its value |
| RollingHash.HashFirst | include/peak_hash.h:119-129 | The share of the first byte is its value rotated by the number of bytes behind it |
| RollingHash.Slide | include/peak_hash.h:131-139 | Rotating, cancelling the first byte and adding the new one is the hash of the moved window |
| RollingHash.Head.Next | include/peak_hash.h:119-122 | The hash is that of the longer window |
| RollingHash.Head.Shift | include/peak_hash.h:131-139 | The hash is that of the moved window |
| RollingHash.HashRoll | include/peak_hash.h:148-157 | The hash of the whole buffer |
| RollingHash.Roll | include/peak_hash.h:114-146 | Filling a window of k bytes and shifting it m times is the hash of the k bytes from m on |
| Pcap.SwapWord | include/peak_type.h:35-49 | The byte swap reverses the four bytes |
| Pcap.FieldRoundTrip | include/peak_type.h:35-49 | A field of either byte order is read back as it was written |
| Pcap.FileHeaderBytes | lib/peak_store.c:64-72 | The 24 bytes of the file header in either byte order |
| Pcap.HeaderFields | lib/peak_store.c:43-48 | Seconds, microseconds and twice the length, each at its offset in the packet header |
| Pcap.Store.constructor | lib/peak_store.c:61-94 | A file without packets |
| Pcap.Store.Put | lib/peak_store.c:39-59 | The file of the packets so far becomes that of one packet more |
| Pcap.Open | lib/peak_load.c:331-368 | Which files are taken for PCAP, their byte order and their link type |
| Pcap.Load.Next | lib/peak_load.c:156-186 | The record at the file position, or length zero and where the position is left |
| Pcap.RecordRead | lib/peak_load.c:156-186 | At a written record the reader finds the packet, with 32-bit timestamps, or stops if it is oversized |
| Pcap.CutOff | lib/peak_load.c:162-181 | A record cut off by the end of the file is no packet |
| Pcap.FileRead | lib/peak_load.c:287-366 | From a file of either byte order the reader gets all packets up to the first empty or oversized one, then the end |
| Pcap.TruncatedRead | lib/peak_load.c:156-186 | From a file whose last record is cut off the reader gets the packets before it, then the end |
| Pcap.RoundTrip | lib/peak_store.c:39-85 | Packets survive a file of either byte order if and only if none is empty or oversized and all timestamps have 32 bits |
| Pcap.ReadAll | lib/peak_load.c:286-310 | The loop over the reader collects exactly those packets |
| Pcap.StoreAndLoad | lib/peak_store.c:39-94 | Storing and loading gives the packets back if and only if they are of that kind |
| TokenBucket.RunLevel | include/peak_token.h:28-66 | In every run tokens never exceed the maximum and never fall below one less than the largest request in debt |
| TokenBucket.RunBooks | include/peak_token.h:39-63 | Tokens left and tokens handed out are covered by the starting balance and the refill of the time passed |
| TokenBucket.Rate | include/peak_token.h:28-66 | Any stretch of any run from a full bucket takes at most its starting balance, the nominal refill of its time, and the largest request less one token, whatever the timestamps |
| TokenBucket.Served | include/peak_token.h:39-65 | A request is granted once the refill since the last one covers the largest request |
| TokenBucket.GrantedExact | include/peak_token.h:34-65 | A request for tokens is granted exactly if there is one at hand after the refill; returns and buckets without a maximum are never refused |
| TokenBucket.Spendable | include/peak_token.h:58-65 | Tokens at hand suffice without a refill |
| TokenBucket.RefilledExact | include/peak_token.h:39-49 | An older timestamp changes nothing; a newer one adds the elapsed time at the nominal rate without the fraction, up to the maximum |
| TokenBucket.NoLoss | include/peak_token.h:39-63 | A request loses nothing but what a full bucket cannot take and less than one token |
| TokenBucket.Fits64 | include/peak_token.h:28-66 | For a maximum below 2^62 every intermediate value fits 64 bits if and only if the elapsed time and its product with the maximum do |
| TokenBucket.OverflowExample | include/peak_token.h:32-41 | A new bucket of ten million tokens overflows when first asked by a millisecond clock of 2014 |
| TokenBucket.Token.constructor | include/peak_token.h:99-104 | A full bucket at time zero |
| TokenBucket.Token.Credit | include/peak_token.h:28-66 | One request against the bucket of the run lemmas |

## Left out

- lib/peak_jar.c, lib/peak_packet.c, lib/peak_regex.c, lib/peak_netmap.c, lib/peak_audit.c: kernel rings, wrappers, and per-branch header tests; peak_packet_parse appears as a packet that was parsed or not.
- lib/peak_li.c, lib/peak_magic.c, lib/peak_number.c and the country tables: finite tables that would only add easy members.
- ERF, PCAPNG and NETMON in lib/peak_load.c: readers without a matching writer; `Pcap.Open` returns nothing for them.
- Pcap.Open: stands for the PCAP branch of peak_load_init only; opening, seeking and reading from standard input are not modelled, and the host is little-endian.
- Pcap.Store.constructor: failing open and write calls are not modelled.
- Pcap.Store.Put: failing write calls are not modelled.
- Failing writes in lib/peak_store.c and failing allocations in the init functions are not modelled; allocation failure inside the paged list is.
- The splay tree, RB_NFIND and RB_PREV of include/sys/tree.h: not used by the modelled cores.
- The comparison functions of tree.h are a parameter there; the model uses intervals that compare equal when they overlap, and numbers are intervals of one element (`PointTree`). Network addresses are integers.
- Geolocation.Entry: nodes are allocated when they are needed instead of being taken from the pool's memory, so reuse of a freed node within one conversion (which geoconv never does) is not captured; intervals come with min <= max, since the order is not one otherwise, and the text parser is not part of this model.
- Geolocation.ReadEntries: intervals with min <= max, as for Entry.
- Geolocation.Convert: intervals with min <= max, as for Entry.
- Geolocation.ConvertAndLocate: intervals with min <= max, as for Entry.
- Geolocation.Finalise: failing writes, the revision and the packed layout of the table are not modelled, only its records and their count.
- The page tree of lib/peak_stream.c appears as its in-order sequence; the tree itself is the subject of `RedBlackTree`, and `PointTree` proves the operations on that sequence for it. What RB operations write into the headers of free pages is arbitrary in the model.
- Streams.StreamPool.Release: releasing more than the stream holds is the caller's error and excluded; the code does not check it.
- PageList.Insert: pages are values in a sequence that the owner reassigns; shifting in place and the links between pages are not captured.
- StringSearch.Strings.Reach: nodes are objects, whereas the C code stores them inside the pages and moves them when a page is split; no pointer to a node is held across an insertion next to it.
- StringSearch.Strings.Add: which allocations fail is a position in the pattern, since the first failure ends the call; patterns of 2^32 bytes or more, for which the loop counter wraps, are not modelled; flags are three booleans, and peak_string_exit is left out.
- Barrier.Safety: spurious wake-ups of the condition variable are assumed not to happen, since barrier_wait does not look again; fewer than 2^32 threads; a thread that is not registered does not wait.
- Tracker.Tracks.Acquire: the flow tree is a map (`PointTree` proves the tree operations for keys as numbers); the counter of flow ids is a field of the one tracker instead of a global shared by several; audit counters and peak_track_exit are left out.
- Md5.Hash: MD5Transform is a parameter, so the digest is not tied to the published test values.
- RollingHash.Roll: windows of a multiple of 32 bytes are excluded, as for Shift.
- RollingHash.Head.Shift: windows of a multiple of 32 bytes are excluded, for which the C shift by 32 is undefined; the table of values is a parameter.
- TokenBucket.Token.Credit: computes in unbounded integers; `TokenBucket.Fits64` says when that is what 64 bits do, and overflow, undefined in C, is not modelled further. The lock and the reference counter are left out.
- TokenBucket.RunLevel: unbounded integers, as for Credit.
- TokenBucket.RunBooks: unbounded integers, as for Credit.
- TokenBucket.Rate: unbounded integers, as for Credit.
- Concurrency other than the barrier (spin locks around pools and tokens) is not modelled.
