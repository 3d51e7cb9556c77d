# Verified models of the simulator's core structures

This project models the parts of the LDS prefetcher and of the gem5 sources beside it whose
correctness is not evident from reading one function, and proves what those parts promise. It
verifies with `dafny verify dfyconfig.toml` (Dafny 4.11).

## What is modelled

- **The trie** (`BitStrings`, `TrieShape`, `Trie`): a path-compressed binary trie with parent
  pointers, on the heap. It refines a finite map from prefixes to values: any run of inserts,
  removes and lookups answers like the map (a lookup finds the *shortest* stored prefix), handles
  keep denoting their prefix, none of the panics is reachable, removal recurses at most once, and
  there are at most twice as many inner and leaf nodes as stored prefixes. Keys are bit strings of
  any width, most significant bit first; the masks are computed with the same shifts and ors.
- **Address ranges and the range map** (`SetSizes`, `NatBits`, `AddrRanges`, `RangeMap`, `RangeMapRuns`): plain,
  striped and XOR-hashed ranges, the merging constructor, and the ordered map with its backward
  walk over stripes. Several properties hold only under a condition, and that condition is proved
  to be exact: `size()` is the number of addresses unless the range spans all 2^64 of them; a hashed
  range is balanced exactly when the two slices end at different bits, which is less than the spacing
  the constructor asks for; merging is exact exactly up to 8 interleaving bits, because its counter has 8 bits;
  the intersection test is right for plain arguments, and for a stripe of size 1 exactly when the stripe holds the
  start of its chunk and nothing else, because the test then looks at that one address; lookup by address is exact exactly when no
  chunk behind the first entry has its start in a stripe other than 0; and an insertion keeps the map well-formed
  exactly when the range fits between its neighbours, of which `insert` checks only the one before, and that one not
  for a range of size 1. Where a condition fails there is a lemma at a concrete input. Over any run of insertions and
  lookups from the empty map, the lookups are right exactly when every accepted range but the lowest starts in stripe 0.
- **The self-rescaling histogram** (`Folds`, `Histogram`, `HistogramRuns`): `sample`, the three growth functions on
  the bucket array, and `add`. Numbers are reals. The reference keeps for every single sample the bucket it is
  in, or that it is lost; the array of counters refines it over any run of samples and additions on any number of
  histograms. For non-negative samples and any number of buckets every bucket is exact after any number of folds.
  For samples of either sign every sample that is not lost lies at most half a bucket below the bucket it is
  counted in. Runs never lose a count exactly if the number of buckets is even; with an odd number the
  conversion drops the first bucket, and so does growing outwards if the number is 3 modulo 4. The buckets grow no
  further than needed.
- **The critical-path annotator** (`ByteQueues`, `CriticalPath`, `AnnotatorRuns`, `AnnotatorReplay`): records that are shared
  between the log and the queues, queue byte accounting, partial dequeues from the front, shrinking
  from the back, and links that wait for their target. Over any run of queue operations with positive counts on any
  number of queues, links, starts of state machines, other records and dumps, every queue is a line of bytes each of
  which remembers its record, the file and the pending records are the log in order with the original
  counts, and the file holds a link without its target exactly if everything was written out while a link waited. The
  log is complete: whoever reads it record by record can rebuild every queue.
- **The barrier** (`BarrierProtocol`): all interleavings of threads that call `wait` again and again,
  with a 32-bit generation counter that wraps, sleep, notification and spurious wake-ups.
- **The decode compiler** (`SwitchCode`, `DecodeCompiler`): nested decode blocks with formats and
  defaults, the parser actions with their two stacks, and the emitted nested C++ switch with its
  fall-through semantics.
- **The target register bitmap** (`TargetRegBitmap`): bit updates, checkpoints per branch, rollback.
- **GDB packets** (`HexCodec`, `GdbPackets`): `send`, `recv`, and the hexadecimal codec. `recv` writes the
  terminating zero behind the end of the buffer exactly when `maxlen` is the size of the buffer, as in the
  source's one call (remote_gdb.cc:692 and 732), and a packet that long comes along. One changed character is noticed
  unless it has become an end mark and the two characters behind it happen to fit.
- **The activity recorder** (`Activity`): the counter, the ring buffer and the stage table.
- **The chunk generator** (`Chunks`): tiling of a region with 64-bit and 32-bit wrap-around.

Code that changes objects or arrays in place is modelled by classes, arrays and loops; each such
method is proved against a function or a predicate on values, and the properties are proved about
those. Where a source comment and the code differ, the code is followed: for instance the trie's
`lookup` returns the value of the first node with a value on the way down, which is the shortest
match. A fatal error, an exception or a failed `recv` appears as a result value (`None`, `Err`,
`false`, `Undefined`, `PastEnd`), an `assert` of the source as a precondition.

In `doQ` the source raises the two queue counters before it creates the record and the model
raises them together with the insertion into the queue; the calls in between do not look at them. In
`doDq` and `swSq` the loop's own counter of elements is a local variable that is written back after
the loop. The growth loops of `sample` are methods of their own, and `add` adds the sums after the growth loops, which
do not look at them. `Sequences` and `Options` hold notions that several
models share.

## Model

| member | source | states |
|---|---|---|
| BitStrings.MatchIsPrefix | gem5_src/base/trie.hh:50-54 | A node matches a key exactly when the node's prefix is a prefix of the key. |
| BitStrings.SubMask | gem5_src/base/trie.hh:124-133 | One mask contains another exactly when its prefix is the longer one. |
| BitStrings.ShiftedOnesIsMask | gem5_src/base/trie.hh:188-193 | Shifting all ones left by the unused bits gives the mask of the width. |
| TrieShape.Node.constructor | gem5_src/base/trie.hh:61-67 | A new node keeps the masked key and has neither parent nor kids. |
| TrieShape.Shape.PrefixIsAncestor | gem5_src/base/trie.hh:45-100 | In a wired trie a node's prefix is a prefix of another's exactly when the node is its ancestor or itself. |
| TrieShape.Shape.FirstMatch | gem5_src/base/trie.hh:158-175 | The first node with a value on a matching path carries the shortest stored prefix of the key. |
| TrieShape.Shape.DeadEnd | gem5_src/base/trie.hh:158-175 | If the walk gets stuck, no stored prefix matches the key. |
| TrieShape.Shape.SetValueValid | gem5_src/base/trie.hh:203-209 | Putting the value into an existing node keeps the shape and adds one entry to the map. |
| TrieShape.Shape.AddLeafValid | gem5_src/base/trie.hh:214-220 | Adding a leaf on a free leg keeps the shape and adds one entry. |
| TrieShape.Shape.SpliceInValid | gem5_src/base/trie.hh:238-243 | Splicing an inner node into a leg keeps the wiring and changes no entry. |
| TrieShape.Shape.SplitValid | gem5_src/base/trie.hh:238-255 | Splitting a leg where the prefixes part, with the value at or below the new node, keeps the shape and adds one entry. |
| TrieShape.Shape.PlaceValid | gem5_src/base/trie.hh:211-256 | Whichever way insert places a prefix below a node, the whole invariant holds again, the map gains exactly that entry and every other handle is kept. |
| TrieShape.Shape.ClearValueValid | gem5_src/base/trie.hh:287-291 | Clearing the value of a node with two kids removes exactly its entry. |
| TrieShape.Shape.UnlinkValid | gem5_src/base/trie.hh:295-311 | Taking a node with at most one kid out of the tree keeps everything valid but perhaps its parent. |
| TrieShape.Shape.UnlinkCascade | gem5_src/base/trie.hh:313-316 | When the parent must go too it has one kid, is not the head, and its own removal triggers none: the cascade stops after one step. |
| TrieShape.Shape.TwoKidsEach | gem5_src/base/trie.hh:45-100 | n nodes with two kids each have exactly 2n kids. |
| TrieShape.Shape.NodesBound | gem5_src/base/trie.hh:185-319 | In every valid trie the nodes other than the head number at most twice the stored prefixes. |
| Trie.ShortestFound | gem5_src/base/trie.hh:151-175 | The reference lookup finds the shortest stored prefix of a key. |
| Trie.ShortestMissing | gem5_src/base/trie.hh:151-175 | The reference lookup finds nothing when no stored prefix matches. |
| Trie.ExtendMaskStep | gem5_src/base/trie.hh:143-149 | Extending a mask adds one bit to its width, up to the full width, also from the empty mask. |
| Trie.CommonMask | gem5_src/base/trie.hh:222-232 | The walk down a leg stops at the longest common prefix of the two keys that is no longer than the new one. |
| Trie.SplitPoint | gem5_src/base/trie.hh:222-236 | Where the keys part, the kid's prefix reaches beyond the common part and differs from the new one in the next bit. |
| Trie.Trie.constructor | gem5_src/base/trie.hh:108-109 | A new trie is valid and stands for the empty map. |
| Trie.Trie.MatchingKid | gem5_src/base/trie.hh:166-171 | The kid whose prefix matches the key, if there is one. |
| Trie.Trie.LookupHandle | gem5_src/base/trie.hh:158-175 | The handle found has the shortest stored prefix of the key, and null comes back exactly when none matches. |
| Trie.Trie.Lookup | gem5_src/base/trie.hh:267-275 | The lookup answers like the finite map. |
| Trie.Trie.GoesAfterIsPrefix | gem5_src/base/trie.hh:124-133 | A kid is walked past exactly when its prefix is a prefix of the new one. |
| Trie.Trie.WalkPast | gem5_src/base/trie.hh:195-201 | The walk ends at a node whose prefix is a prefix of the new one while no kid's is. |
| Trie.Trie.PutLeaf | gem5_src/base/trie.hh:214-220 | The heap is rewired to exactly the shape with a new leaf. |
| Trie.Trie.PutMid | gem5_src/base/trie.hh:238-243 | The heap is rewired to exactly the shape with an inner node spliced in. |
| Trie.Trie.SplitLeg | gem5_src/base/trie.hh:238-255 | The heap is rewired to exactly the shape in which the leg is split. |
| Trie.Trie.TryLeg | gem5_src/base/trie.hh:211-256 | A leg either takes the new prefix, with the split at the right bit, or leads away from it at the first bit and nothing has changed. |
| Trie.Trie.PutBelow | gem5_src/base/trie.hh:211-260 | One of the two legs takes the new prefix: the panic after the loop is unreachable. |
| Trie.Trie.NewMask | gem5_src/base/trie.hh:188-193 | Bit i of the mask is set exactly when i is below the width, also for widths beyond the key. |
| Trie.Trie.InsertAt | gem5_src/base/trie.hh:203-256 | The value goes into the node itself or below it; the map and the handles gain exactly that prefix. |
| Trie.Trie.Insert | gem5_src/base/trie.hh:185-260 | Insert keeps the trie valid, adds exactly the masked prefix to the map, and leaves all other handles as they were. |
| Trie.Trie.TakeValue | gem5_src/base/trie.hh:287-291 | The heap mirrors the shape with the value cleared. |
| Trie.Trie.Relink | gem5_src/base/trie.hh:300-311 | The parent points to the kid instead of the node, and a lone kid is kids[0]. |
| Trie.Trie.Detach | gem5_src/base/trie.hh:295-311 | The heap is rewired to exactly the shape without the node. |
| Trie.Trie.RemoveNode | gem5_src/base/trie.hh:282-319 | Removal keeps the trie valid, drops exactly the node's entry, returns its value, and is activated at most twice. |
| Trie.Trie.Remove | gem5_src/base/trie.hh:282-319 | Removing a handle returns its value, drops its prefix from the map, and leaves all other handles alone. |
| Trie.Trie.RemoveKey | gem5_src/base/trie.hh:326-333 | Removing by key drops what a lookup of the key finds, or nothing. |
| Trie.Do | gem5_src/base/trie.hh:158-333 | One operation on trie and map keeps them in step, with the handles the client kept still valid. |
| Trie.Run | gem5_src/base/trie.hh:158-333 | Every legal run of inserts, removes by handle or key, and lookups answers like a plain finite map. |
| Trie.LookupAfterInsert | gem5_src/base/trie.hh:185-275 | A lookup after an insertion finds the new value if and only if the first width bits agree, or all bits, and nothing shorter is stored; otherwise it finds what it found before. |
| Trie.InsertThenLookup | gem5_src/base/trie.hh:185-275 | After one insertion into an empty trie, exactly the keys that agree with it on the first width bits are found. |
| Trie.LookupAfterRemove | gem5_src/base/trie.hh:326-333 | Removing by key answers what a lookup would have answered, takes out one entry at most, and leaves all lookups alone that did not find it. |
| NatBits.BitsIsSlice | gem5_src/base/bitfield.hh:40-59 | The bitfield function returns exactly the slice of bits, right justified. |
| NatBits.BitOfBits | gem5_src/base/bitfield.hh:52-59 | Bit i of a bitfield is bit last + i of the word. |
| NatBits.AndMask | gem5_src/base/bitfield.hh:39-44 | Masking with the low n ones keeps exactly the low n bits. |
| AddrRanges.AddrRange.StripeBit | gem5_src/base/addr_range.hh:336-344 | Each bit of the stripe number is an address bit, or the exclusive or of two. |
| AddrRanges.AddrRange.StripeInjective | gem5_src/base/addr_range.hh:328-347 | With the other bits fixed, different slice values select different stripes, even where hash and slice overlap. |
| AddrRanges.AddrRange.StripeOnto | gem5_src/base/addr_range.hh:328-347 | Every stripe is selected by some slice value. |
| AddrRanges.AddrRange.Balanced | gem5_src/base/addr_range.hh:214-217 | Each stripe of an aligned range contains exactly its share of the addresses, hashed or not. |
| AddrRanges.AddrRange.HashedBalance | gem5_src/base/addr_range.hh:115-129 | A hashed stripe gets its share if and only if the two slices end at different bits. |
| AddrRanges.AddrRange.SizeIsCount | gem5_src/base/addr_range.hh:208-217 | size() is the number of contained addresses if and only if the range does not span the whole address space. |
| AddrRanges.BuildHashed | gem5_src/base/addr_range.hh:103-130 | The constructor accepts a hashed range exactly when the match value fits and the two slices share no bit. |
| AddrRanges.BuildBalanced | gem5_src/base/addr_range.hh:103-130 | What the constructor accepts reports its true size unless it spans everything. |
| AddrRanges.BuildExact | gem5_src/base/addr_range.hh:103-130 | Without hashing only a match value that does not fit is refused. What is built holds exactly the addresses between start and end whose chosen bits, or exclusive ors of two, spell the given match value. |
| AddrRanges.Merge | gem5_src/base/addr_range.hh:143-177 | The merging constructor accepts exactly the complete families of stripes, numbered by an 8-bit counter, and yields the plain range; no ranges give the empty one. |
| AddrRanges.ExactlyOneStripe | gem5_src/base/addr_range.hh:143-177 | An address lies in exactly one of the merged stripes if and only if it lies in the span and there are at most 8 interleaving bits. |
| AddrRanges.MergeExact | gem5_src/base/addr_range.hh:143-177 | The merged range contains the same addresses as exactly one stripe, for all addresses, if and only if there are at most 8 interleaving bits. |
| AddrRanges.NineBitsMerge | gem5_src/base/addr_range.hh:143-177 | 512 stripes of 9 interleaving bits that the 8-bit counter accepts, and no address lies in exactly one of them. |
| AddrRanges.IntersectsExact | gem5_src/base/addr_range.hh:283-306 | For a plain argument, for a stripe of another chunk whose size is not 1, and for a stripe of size 1 that holds its start and nothing else, the intersection test is right whenever it answers. For two stripes of one chunk it is right if and only if comparing the match values decides the matter, or, for an argument of size 1, the stripe number of the chunk's start does. |
| AddrRanges.ValidExactly | gem5_src/base/addr_range.hh:219-222 | A plain range is valid if and only if it holds an address. |
| AddrRanges.PlainExact | gem5_src/base/addr_range.hh:283-291 | For valid plain ranges the intersection test always answers, and it says exactly whether they share an address. |
| AddrRanges.GivesUpExactly | gem5_src/base/addr_range.hh:283-305 | The test panics if and only if the spans overlap, one of the ranges is striped, the argument has not size 1 and the two are not stripes of one chunk. |
| AddrRanges.IntersectsAligned | gem5_src/base/addr_range.hh:283-306 | For stripes of one aligned chunk the test is right if and only if the size is not 1, or the asking stripe holds the start of the chunk exactly when the two are the same stripe. |
| AddrRanges.SingleExact | gem5_src/base/addr_range.hh:294-297 | Against a stripe of size 1, aligned or not, the test is right for every range if and only if the stripe holds the start of its chunk and nothing else. |
| AddrRanges.AlignedSingleExact | gem5_src/base/addr_range.hh:294-297 | For an aligned stripe of size 1 it is enough that it holds the start. |
| AddrRanges.WrongVerdict | gem5_src/base/addr_range.hh:294-297 | The two stripes of the chunk [0,1] are accepted by the constructor, share no address, and the test says they do. |
| RangeMap.UniqueHolder | gem5_src/base/addr_range_map.hh:52-62 | In a well-formed map no address belongs to two entries. |
| RangeMap.SearchSound | gem5_src/base/addr_range_map.hh:68-115 | A search for one address never panics, and an entry found contains the address. |
| RangeMap.SearchComplete | gem5_src/base/addr_range_map.hh:68-115 | If chunks start in stripe 0 and some entry contains the address, the search finds one. |
| RangeMap.FindAddressExact | gem5_src/base/addr_range_map.hh:68-115 | In a well-formed map the lookup agrees with a linear scan on all addresses if and only if chunks start in their stripe 0. |
| RangeMap.SearchReports | gem5_src/base/addr_range_map.hh:68-109 | A search reports only an entry whose test says yes, and panics only if the test of some entry does. |
| RangeMap.PlainSearch | gem5_src/base/addr_range_map.hh:68-109 | Among plain ranges a search never panics, and reports the entry before, or the first one, exactly if that shares an address with the range. |
| RangeMap.StartMissed | gem5_src/base/addr_range_map.hh:84-108 | An entry behind the first that holds the start of its chunk in another stripe is missed there. |
| RangeMap.StartMissedAt64 | gem5_src/base/addr_range_map.hh:84-108 | A well-formed map of two entries in which address 64 is held and not found. |
| RangeMap.PutSorted | gem5_src/base/addr_range_map.hh:129-129 | The ordered map stays ordered. |
| RangeMap.PutExact | gem5_src/base/addr_range_map.hh:123-130 | An insertion keeps the map well-formed if and only if the range fits between its two neighbours. |
| RangeMap.PutStarts | gem5_src/base/addr_range_map.hh:123-130 | Chunks still start in stripe 0 after an insertion if and only if they did before and the new range does, or, if it goes to the front, the old first entry, which was exempt. |
| RangeMap.Accepted | gem5_src/base/addr_range_map.hh:123-130 | Everything an accepted insertion does to order, well-formedness and starts of chunks. |
| RangeMap.PredecessorChecked | gem5_src/base/addr_range_map.hh:117-130 | After a failed search the neighbour before is compatible if and only if the size of the range is not 1, or the range starts behind it, or is another stripe of its chunk; the range then fits if and only if the neighbour after is compatible too. |
| RangeMap.OverlapSlipsIn | gem5_src/base/addr_range_map.hh:117-130 | A concrete insertion that is accepted although it overlaps the next entry. |
| RangeMap.GapSlipsIn | gem5_src/base/addr_range_map.hh:117-130 | A single address in a gap of the only stripe in the map is accepted and breaks the map. |
| RangeMap.SingleSlipsIn | gem5_src/base/addr_range_map.hh:117-130 | The same at address 64 behind stripe 0 of the chunk [0,127]. |
| RangeMap.StripeRefused | gem5_src/base/addr_range_map.hh:117-130 | A map that holds one stripe of the chunk [0,1] refuses the other one, although it fits. |
| RangeMap.AddrRangeMap.constructor | gem5_src/base/addr_range_map.hh:57-62 | A new map is empty. |
| RangeMap.AddrRangeMap.FindRange | gem5_src/base/addr_range_map.hh:68-109 | The loop computes the search, panics included. |
| RangeMap.AddrRangeMap.Find | gem5_src/base/addr_range_map.hh:111-115 | Lookup by address returns an entry that contains it, the only one in a well-formed map, and end only if there is none when chunks start in stripe 0. |
| RangeMap.AddrRangeMap.Insert | gem5_src/base/addr_range_map.hh:123-130 | Insert returns end on a clash and leaves the map alone, else adds the entry unless an equivalent one exists; a well-formed map stays so if and only if the range is valid and fits between its neighbours, which for a range of more than one address depends on the next entry alone; and it is stated exactly when chunks still start in stripe 0; among plain ranges it never panics and returns end if and only if the entry before, or the first one, shares an address with the new range. |
| RangeMapRuns.AfterIsKept | gem5_src/base/addr_range_map.hh:123-130 | After any run the tree is the accepted insertions in some order, no two of them at the same place of the order. |
| RangeMapRuns.WellFormedExactly | gem5_src/base/addr_range_map.hh:52-62 | The tree is well-formed if and only if the accepted ranges are valid and apart. |
| RangeMapRuns.StartsExactly | gem5_src/base/addr_range_map.hh:84-108 | Chunks start in stripe 0 if and only if every accepted range but the lowest holds the start of its chunk in stripe 0 only. |
| RangeMapRuns.AgreesIsScan | gem5_src/base/addr_range_map.hh:111-115 | The search agrees with the tree at an address if and only if it returns what a scan of the insertions returns. |
| RangeMapRuns.RunExact | gem5_src/base/addr_range_map.hh:68-130 | After any run whose accepted ranges are valid and apart, every lookup returns what a scan of them would, if and only if every range but the lowest holds the start of its chunk in stripe 0 only. |
| RangeMapRuns.AcceptsApart | gem5_src/base/addr_range_map.hh:123-130 | A range that is valid, apart from the others and not the one of size 1 that another stripe claims is accepted. |
| RangeMapRuns.AllAccepted | gem5_src/base/addr_range_map.hh:123-130 | A run of such ranges is accepted completely. |
| RangeMapRuns.ClientExact | gem5_src/base/addr_range_map.hh:68-130 | For such a run every lookup agrees with a scan of what the client inserted, if and only if every range but the lowest starts in stripe 0. |
| RangeMapRuns.Do | gem5_src/base/addr_range_map.hh:68-130 | One insertion or lookup keeps the object in step with the reference. |
| RangeMapRuns.Simulate | gem5_src/base/addr_range_map.hh:68-130 | Any run of insertions and lookups from the empty map answers as the reference does, and each lookup like a scan of the insertions accepted so far whenever these are valid, apart and start in stripe 0. |
| Folds.TotalFoldUp | gem5_src/base/statistics.cc:333-353 | Folding up loses no count. |
| Folds.TotalFoldConvert | gem5_src/base/statistics.cc:311-331 | Converting loses exactly the first bucket of an odd number, and nothing otherwise. |
| Folds.TotalFoldOut | gem5_src/base/statistics.cc:272-309 | Growing outwards loses exactly the first bucket when the number is 3 modulo 4, and nothing otherwise. |
| Folds.PairedTotal | gem5_src/base/statistics.cc:272-353 | Any of the folds keeps the total, but for the first bucket if no bucket takes it over. |
| Folds.FoldUpCounted | gem5_src/base/statistics.cc:333-353 | After the fold each bucket tallies the samples whose old bucket, halved, is the new one. |
| Folds.FoldConvertCounted | gem5_src/base/statistics.cc:311-331 | The same for the conversion, for every number of buckets: exactly the samples in the first bucket of an odd number are lost. |
| Folds.FoldOutCounted | gem5_src/base/statistics.cc:272-309 | The same for growing outwards: exactly the samples in the first bucket are lost, if the number is 3 modulo 4. |
| Histogram.Span | gem5_src/base/statistics.hh:1548-1571 | max_bucket + bucket_size - min_bucket is the number of buckets times the bucket size, and the range is never empty. |
| Histogram.UpOk | gem5_src/base/statistics.cc:351-352 | Doubling keeps the scale in order. |
| Histogram.OutOk | gem5_src/base/statistics.cc:306-308 | Doubling both ends keeps the scale in order and below 0. |
| Histogram.ConvertOk | gem5_src/base/statistics.cc:329-330 | The conversion gives a scale that is centred and in order. |
| Histogram.UpFiled | gem5_src/base/statistics.cc:333-353 | Folding up keeps every sample near its bucket and every bucket equal to its tally. |
| Histogram.ConvertFiled | gem5_src/base/statistics.cc:311-331 | The same for the conversion, for the samples that are not lost and every number of buckets. |
| Histogram.OutFiled | gem5_src/base/statistics.cc:272-309 | The same for growing outwards. |
| Histogram.FiledIsPlain | gem5_src/base/statistics.hh:1548-1578 | While the lower end is 0 and nothing is lost, bucket j holds exactly the samples s with floor(s / bucket_size) = j. |
| Histogram.TalliesTotal | gem5_src/base/statistics.hh:1548-1578 | The buckets add up to the samples that are not lost. |
| Histogram.IndexInRange | gem5_src/base/statistics.hh:1568-1571 | The computed index names a bucket, and the value lies between the two ends of that bucket. |
| Histogram.HistStor.constructor | gem5_src/base/statistics.hh:1532-1536 | A new histogram is valid and empty. |
| Histogram.HistStor.Reset | gem5_src/base/statistics.hh:1624-1640 | Everything starts from 0 again. |
| Histogram.HistStor.GrowUp | gem5_src/base/statistics.cc:333-353 | Scale and buckets become the folded ones and the samples move along; tallies stay right. |
| Histogram.HistStor.GrowOut | gem5_src/base/statistics.cc:272-309 | The same for growing outwards, for every number of buckets. |
| Histogram.HistStor.GrowConvert | gem5_src/base/statistics.cc:311-331 | The same for the conversion. |
| Histogram.HistStor.CoverUp | gem5_src/base/statistics.hh:1560-1561 | The loop that grows upwards ends with the value in range, as in the reference. |
| Histogram.HistStor.CoverAbove | gem5_src/base/statistics.hh:1563-1564 | The same for growing outwards to a value above the range. |
| Histogram.HistStor.CoverBelow | gem5_src/base/statistics.hh:1556-1557 | The same for growing outwards to a value below the range. |
| Histogram.HistStor.RaiseTo | gem5_src/base/statistics.cc:367-370 | One histogram grows to the other's bucket size, if that is larger. |
| Histogram.HistStor.Cover | gem5_src/base/statistics.hh:1551-1566 | The growth loops end and the range then covers the value; scale and slots are those of the reference, and tallies stay right. |
| Histogram.HistStor.Sample | gem5_src/base/statistics.hh:1548-1578 | The new state is that of the reference with one sample more, the new sample lies between the ends of its bucket; count, sum, sum of squares and sum of logarithms are still those of all samples, and the buckets still tally every sample that is not lost. |
| Histogram.SumsSpelled | gem5_src/base/statistics.hh:1573-1576 | One sample more adds value, squared value and logarithm, each times the number. |
| Histogram.VarianceNotNegative | gem5_src/base/statistics.hh:1573-1576 | The number of samples times the sum of squares is at least the sum squared. |
| Histogram.SumsConcat | gem5_src/base/statistics.cc:362-365 | The sums of two runs together are the sums of each added up. |
| Histogram.HistStor.Align | gem5_src/base/statistics.cc:367-370 | Both histograms reach the same bucket size, each as the reference does. |
| Histogram.HistStor.Add | gem5_src/base/statistics.cc:355-374 | The result is the histogram of the combined samples, with their count and sums, and the other one has grown along; also when a histogram is added to itself. |
| Histogram.AddInPlace | gem5_src/base/statistics.cc:372-373 | The buckets are added one by one, also to themselves. |
| Histogram.FoldUpInPlace | gem5_src/base/statistics.cc:336-349 | The loops fold pairs into the lower half in place. |
| Histogram.FoldConvertInPlace | gem5_src/base/statistics.cc:314-327 | The loops fold pairs into the upper half in place. |
| Histogram.FoldLow | gem5_src/base/statistics.cc:280-291 | The downward loops fold the lower half in place, and the assertion between them holds. |
| Histogram.FoldHigh | gem5_src/base/statistics.cc:293-304 | The upward loops fold the upper half in place, and the assertion between them holds. |
| Histogram.FoldOutInPlace | gem5_src/base/statistics.cc:275-304 | Together they fold both halves outwards. |
| HistogramRuns.CoveredSound | gem5_src/base/statistics.hh:1551-1566 | Growing keeps a range that starts at 0 there for values from 0 on, and loses no sample then, or with an even number of buckets. |
| HistogramRuns.JointSound | gem5_src/base/statistics.cc:355-374 | Adding two histograms that start at the same value loses nothing either. |
| HistogramRuns.GrownLeast | gem5_src/base/statistics.hh:1551-1566 | A range that covers the value does not grow, and otherwise the range before the last step did not cover it. |
| HistogramRuns.LeastBuckets | gem5_src/base/statistics.hh:1548-1571 | For samples from 0 on, the bucket size is the least power of two with which the buckets cover them all. |
| HistogramRuns.JointSize | gem5_src/base/statistics.cc:367-370 | Adding takes the larger of the two bucket sizes. |
| HistogramRuns.LosingRun | gem5_src/base/statistics.cc:311-331 | With any odd number of buckets from 3 on, the run 0, -1 ends with one count. |
| HistogramRuns.ConservesExactly | gem5_src/base/statistics.hh:1548-1578 | The buckets of every run add up to its samples if and only if the number of buckets is even. |
| HistogramRuns.Collect | gem5_src/base/statistics.hh:1548-1578 | For every run and any number of buckets from 2 on, the row tallies the samples at the reference's bucket size and adds up to those that are not lost; non-negative samples give exactly the plain histogram with the least power of two as bucket size, and an even number of buckets loses nothing. |
| HistogramRuns.Do | gem5_src/base/statistics.hh:1548-1578 | One sample or one addition changes exactly the histograms concerned, as the reference does. |
| HistogramRuns.Simulate | gem5_src/base/statistics.cc:272-374 | The same as for one run, and count, sum, sum of squares and sum of logarithms exact, for every run that mixes samples and additions on any number of histograms. |
| ByteQueues.SkipHead | gem5_src/base/cp_annotate.cc:1044-1055 | Dropping a whole record from the front drops exactly its bytes from the stream. |
| ByteQueues.BackStep | gem5_src/base/cp_annotate.cc:655-666 | Dropping a whole record from the back leaves exactly the bytes before it. |
| CriticalPath.AnnotateData.constructor | gem5_src/base/cp_annotate.cc:825-834 | A new record keeps its original amount and may be written. |
| CriticalPath.TakeFront | gem5_src/base/cp_annotate.cc:1026-1056 | The loop never meets an empty queue and removes exactly the first bytes of the queue's byte stream. |
| CriticalPath.TakeBack | gem5_src/base/cp_annotate.cc:646-667 | The loop never meets an empty queue and leaves exactly the first bytes of the stream. |
| CriticalPath.Intern | gem5_src/base/cp_annotate.hh:375-393 | Names and numbers stay in one-to-one correspondence, and a name has a number exactly when it was given one. |
| CriticalPath.Cpa.constructor | gem5_src/base/cp_annotate.hh:280-305 | A new annotator has written nothing and has no queues. |
| CriticalPath.Cpa.Dump | gem5_src/base/cp_annotate.cc:934-976 | Written records followed by pending ones are all records in order of creation; an ordinary dump writes up to the first record that may not be written, and each record as it is then, with its original count. |
| CriticalPath.Cpa.DumpSome | gem5_src/base/cp_annotate.cc:934-976 | An ordinary dump leaves exactly the file that the log and the file before determine. |
| CriticalPath.Cpa.Add | gem5_src/base/cp_annotate.cc:822-846 | The record joins the log at the end, what was written stays written, and every record but a link sets off an ordinary dump. |
| CriticalPath.Cpa.SyscallLink | gem5_src/base/cp_annotate.cc:807-813 | The link with the placeholder target waits under its name and holds up the log. |
| CriticalPath.Cpa.Resolve | gem5_src/base/cp_annotate.cc:223-238 | The waiting link gets its target and may be written; no other record changes. |
| CriticalPath.Cpa.GetQ | gem5_src/base/cp_annotate.hh:375-393 | The same name gets the same number, a new name an empty queue of its own. |
| CriticalPath.Cpa.Push | gem5_src/base/cp_annotate.cc:982-991 | The record is at the chosen end, and size and bytes of every queue are still its length and its sum. |
| CriticalPath.Cpa.DoQ | gem5_src/base/cp_annotate.cc:978-996 | Enqueueing adds one record with its bytes to the log and to the right end of the right queue. |
| CriticalPath.Cpa.Clear | gem5_src/base/cp_annotate.cc:1007-1009 | The queue is empty and the others are as before. |
| CriticalPath.Cpa.PopFront | gem5_src/base/cp_annotate.cc:1026-1056 | Exactly the first bytes leave the queue; the counters of all queues still agree with their contents. |
| CriticalPath.Cpa.PopBack | gem5_src/base/cp_annotate.cc:646-667 | Exactly the last bytes leave the queue; the counters of all queues still agree with their contents. |
| CriticalPath.Cpa.DqAll | gem5_src/base/cp_annotate.cc:1005-1013 | Dequeueing everything empties the queue and logs itself. |
| CriticalPath.Cpa.DqSome | gem5_src/base/cp_annotate.cc:1026-1061 | Dequeueing bytes that are there removes exactly the first ones and logs itself. |
| CriticalPath.Cpa.DoDq | gem5_src/base/cp_annotate.cc:999-1061 | Dequeueing succeeds exactly when the bytes are there, or everything is asked for; it removes exactly the first bytes and logs itself with its count. |
| CriticalPath.Cpa.Shrink | gem5_src/base/cp_annotate.cc:637-668 | The queue is cut from the back to max(size, 0) bytes. |
| CriticalPath.Cpa.Resize | gem5_src/base/cp_annotate.cc:635-668 | Whatever the queue held, it then holds max(size, 0) bytes, through one record added or the last bytes removed. |
| CriticalPath.Cpa.ResetQ | gem5_src/base/cp_annotate.cc:627-633 | The queue is empty, and the log says so. |
| CriticalPath.Cpa.SizeQ | gem5_src/base/cp_annotate.cc:627-668 | The same with an optional reset first, and the records that the log gains are given. |
| AnnotatorRuns.PutInQueue | gem5_src/base/cp_annotate.cc:978-996 | Enqueueing puts that many new bytes at the back of the queue's line, or at the front, and one record into the log; the other queues and the links are as before. |
| AnnotatorRuns.TakeFromQueue | gem5_src/base/cp_annotate.cc:999-1061 | Dequeueing takes the first bytes off the line; with too few of them everything is written out and the annotator stops. |
| AnnotatorRuns.SizeQueue | gem5_src/base/cp_annotate.cc:627-668 | Resizing, with or without a reset, cuts the line at the back or fills it up. |
| AnnotatorRuns.Open | gem5_src/base/cp_annotate.hh:375-393 | The first use of a name adds an empty line, and later uses find the same one. |
| AnnotatorRuns.Link | gem5_src/base/cp_annotate.cc:807-813 | A link without a target joins the log and waits under its name. |
| AnnotatorRuns.Start | gem5_src/base/cp_annotate.cc:223-238 | The waiting link's record gets its target in the log, and no other record changes. |
| AnnotatorRuns.Record | gem5_src/base/cp_annotate.cc:822-846 | Any other record joins the log. |
| AnnotatorRuns.AllOut | gem5_src/base/cp_annotate.cc:934-976 | After everything is written out the file is free of links without a target if and only if it was before and none waits. |
| AnnotatorRuns.Write | gem5_src/base/cp_annotate.cc:934-976 | An ordinary dump spoils nothing; a full one spoils the file exactly if a link waits. |
| AnnotatorRuns.Do | gem5_src/base/cp_annotate.cc:223-1061 | One event keeps annotator and reference in step; it stops exactly when the reference does. |
| AnnotatorRuns.Simulate | gem5_src/base/cp_annotate.cc:223-1061 | After every run, on any number of queues and with links, starts and dumps: the file is exactly the reference's, which an ordinary dump extends up to the first link without its target once 10000 records are pending; file and pending records together are the log, record by record, but for links that went out without their target; the file is free of those if and only if everything was never written out while a link waited; and the records of every queue have positive amounts and spell, byte by byte, the queue's line of log positions, with their number and their bytes in the queue's two counters. |
| AnnotatorReplay.StepTold | gem5_src/base/cp_annotate.cc:223-1061 | One event changes every queue exactly as the records it logs say. |
| AnnotatorReplay.RunReplays | gem5_src/base/cp_annotate.cc:223-1061 | After any run, whoever reads the log record by record ends up with exactly the queues of the annotator, byte by byte. |
| AnnotatorReplay.LastInFirstOut | gem5_src/base/cp_annotate.cc:988-989 | With flag 0x04 the new bytes leave first: taking out as many undoes the operation. |
| AnnotatorReplay.FirstInFirstOut | gem5_src/base/cp_annotate.cc:990-991 | Without it they are the last to leave. |
| AnnotatorReplay.ResetForgets | gem5_src/base/cp_annotate.cc:627-668 | With flag 0x20 nothing that was in the queue stays; without it the first bytes stay, up to the new size. |
| AnnotatorReplay.PutInLogged | gem5_src/base/cp_annotate.cc:978-996 | An enqueue is logged under its own time, cpu, state machine, queue, flag and count. |
| AnnotatorReplay.TakeOutLogged | gem5_src/base/cp_annotate.cc:999-1061 | So is a dequeue, which fails exactly if there are too few bytes. |
| AnnotatorReplay.SetSizeLogged | gem5_src/base/cp_annotate.cc:627-668 | A change of size logs two records at most, under its own time, cpu, state machine and queue. |
| AnnotatorReplay.LinkLogged | gem5_src/base/cp_annotate.cc:807-813 | A link is logged with the target 65535, and when its state machine starts that record alone gets the new target. |
| AnnotatorReplay.DumpedSpelled | gem5_src/base/cp_annotate.cc:934-976 | Below 10000 pending records an ordinary dump writes nothing; from there on it writes up to the first link to 65535. |
| AnnotatorReplay.FileAfter | gem5_src/base/cp_annotate.cc:822-976 | What each event writes to the file. |
| BarrierProtocol.LastArrival | gem5_src/base/barrier.hh:70-75 | When the countdown reaches zero, every other thread is waiting in the current round. |
| BarrierProtocol.LastArrivalGood | gem5_src/base/barrier.hh:70-75 | Completing a round and notifying everybody keeps the invariant across the wrap of the generation. |
| BarrierProtocol.OtherStepGood | gem5_src/base/barrier.hh:67-78 | Arriving early, waking up for no reason, leaving and waking up in vain keep the invariant. |
| BarrierProtocol.AlwaysGood | gem5_src/base/barrier.hh:64-79 | In every interleaving a waiter's saved generation is that of the current round or of the one before. |
| BarrierProtocol.GenerationCounts | gem5_src/base/barrier.hh:70-72 | The generation is the number of completed rounds modulo 2^32. |
| BarrierProtocol.InStep | gem5_src/base/barrier.hh:64-79 | No thread returns from a round before all have arrived in it, under all interleavings, if and only if no more threads take part than the barrier counts. |
| BarrierProtocol.TooManyThreads | gem5_src/base/barrier.hh:64-79 | With one thread more there is an interleaving in which a round completes without it. |
| BarrierProtocol.OneWinner | gem5_src/base/barrier.hh:70-75 | Exactly one call per round returns true, as soon as all threads have arrived. |
| BarrierProtocol.SleepersAreCurrent | gem5_src/base/barrier.hh:70-77 | No wake-up is lost: in every interleaving, whoever sleeps waits in the current round. |
| BarrierProtocol.ReleasedExactly | gem5_src/base/barrier.hh:76-78 | A waiter is awake and can leave exactly when everybody has arrived in its round: none is released early or missed. |
| BarrierProtocol.NeverStuck | gem5_src/base/barrier.hh:64-79 | With the full number of threads some thread can always enter or leave, without a spurious wake-up. |
| BarrierProtocol.Lives | gem5_src/base/barrier.hh:64-79 | Among the thread counts that stay in step, only the full one can never get stuck. |
| DecodeCompiler.Accepted | gem5_src/arch/isa_parser.py:1902-2009 | The parser accepts exactly the descriptions with known formats in which every block has one default statement, or none and a default in scope. |
| DecodeCompiler.Blamed | gem5_src/arch/isa_parser.py:1890-2072 | An error is never reported without its cause somewhere in the description. |
| DecodeCompiler.FormatsApply | gem5_src/arch/isa_parser.py:1970-2072 | In a description with nested formats each instruction gets its own format, or else the innermost one, and any constant of a list counts. |
| DecodeCompiler.DefaultsApply | gem5_src/arch/isa_parser.py:1902-1932 | An inner block without a default uses that of the block around it. |
| DecodeCompiler.LabelsFound | gem5_src/arch/isa_parser.py:2011-2044 | The emitted labels match exactly the listed constants, and the default label is there exactly when listed. |
| DecodeCompiler.CaseJumps | gem5_src/arch/isa_parser.py:1992-2009 | Jumping to any label of a case runs that case's code and nothing else. |
| DecodeCompiler.DefaultYields | gem5_src/arch/isa_parser.py:1925-1932 | The waiting default clause is reached by its default label only. |
| DecodeCompiler.Closes | gem5_src/arch/isa_parser.py:1902-1911 | A closed switch returns the matching case, else the block's default statement, else the inherited default. |
| DecodeCompiler.StmtsDecode | gem5_src/arch/isa_parser.py:1934-1942 | Concatenated statements jump to the first that matches, and know whether they contain a default. |
| DecodeCompiler.StmtDecodes | gem5_src/arch/isa_parser.py:1970-2009 | The same for one statement, with the innermost format for instructions without their own. |
| DecodeCompiler.BlockDecodes | gem5_src/arch/isa_parser.py:1902-2009 | Every nested switch returns the instruction its block means, so no case falls through, and that instruction is defined. |
| DecodeCompiler.LegalExactly | gem5_src/arch/isa_parser.py:1992-2044 | The emitted switch has distinct labels and a single default everywhere if and only if constants differ within each block and no case list mixes default with constants. |
| DecodeCompiler.Decodes | gem5_src/arch/isa_parser.py:1890-2009 | Every accepted, well-labelled description decodes every machine word to the instruction it means. |
| DecodeCompiler.Parser.constructor | gem5_src/arch/isa_parser.py:1233-1237 | The stacks start with no format and no default. |
| DecodeCompiler.Parser.DefineInstruction | gem5_src/arch/isa_parser.py:2049-2072 | An instruction uses its own format if known, else the top of the format stack; a missing or unknown format is an error. |
| DecodeCompiler.Parser.PushDefault | gem5_src/arch/isa_parser.py:1913-1932 | The default that holds inside the block is pushed: its own or the one on top. |
| DecodeCompiler.Parser.ParseBlock | gem5_src/arch/isa_parser.py:1902-1911 | The action yields the compiled block, and both stacks are restored. |
| DecodeCompiler.Parser.ParseStmts | gem5_src/arch/isa_parser.py:1934-1942 | The actions yield the compiled statements, two defaults are an error, and both stacks are restored. |
| DecodeCompiler.Parser.ParseStmt | gem5_src/arch/isa_parser.py:1970-2009 | The action yields the compiled statement, and both stacks are restored. |
| DecodeCompiler.ParseTop | gem5_src/arch/isa_parser.py:1890-2009 | Running the parser accepts exactly the acceptable descriptions, and the code it emits decodes as the description says. |
| TargetRegBitmap.BitmapMeaning | targetregbitmap.hh:59-64 | A bit is set exactly when the register's value came from a load, possibly through moves. |
| TargetRegBitmap.LastWriterDecides | targetregbitmap.hh:59-64 | The last instruction that writes a register decides its bit: a load sets it, a move copies the bit of its source at that time, any other instruction clears it. |
| TargetRegBitmap.NeverWritten | targetregbitmap.hh:59-64 | A register that is never written has its bit clear. |
| TargetRegBitmap.TargetRegBitmap.LdSet | targetregbitmap.hh:59-60 | A load sets the bit of its destination. |
| TargetRegBitmap.TargetRegBitmap.NldReset | targetregbitmap.hh:61-62 | Another instruction resets the bit of its destination. |
| TargetRegBitmap.TargetRegBitmap.MoveSet | targetregbitmap.hh:63-64 | A move copies the bit. |
| TargetRegBitmap.TargetRegBitmap.Access | targetregbitmap.hh:50-51 | Each instruction updates the bitmap in its own way. |
| TargetRegBitmap.TargetRegBitmap.Enqueue | targetregbitmap.cc:47-52 | A branch puts a copy of the bitmap at the end of the queue. |
| TargetRegBitmap.TargetRegBitmap.Fetched | targetregbitmap.cc:47-52 | Bitmap and checkpoints still describe the instructions before each point. |
| TargetRegBitmap.TargetRegBitmap.Dequeue | targetregbitmap.cc:55-72 | Resolving the oldest branch drops its checkpoint or rolls back to it, and bitmap and checkpoints describe the instructions that remain. |
| TargetRegBitmap.Simulate | targetregbitmap.cc:47-72 | After every stream of events the bitmap is that of a run which never saw a wrong path, and each checkpoint is the bitmap before its branch. |
| TargetRegBitmap.WrongPathUndone | targetregbitmap.cc:55-65 | If the oldest open branch was mispredicted, everything fetched behind it is as if it had never been. |
| TargetRegBitmap.RightPathKept | targetregbitmap.cc:66-72 | If it was predicted rightly, nothing is undone. |
| HexCodec.DigitRoundTrip | gem5_src/base/remote_gdb.cc:1003-1024 | Digit and value undo each other, up to the case of the letter. |
| HexCodec.DigitTable | gem5_src/base/remote_gdb.cc:1019-1024 | The digits are 0 to 9 and a to f, in this order. |
| HexCodec.ValueTable | gem5_src/base/remote_gdb.cc:1003-1017 | A character has value d if and only if it is digit d in lower or in upper case. |
| HexCodec.NoDigit | gem5_src/base/remote_gdb.cc:1003-1017 | Exactly the other characters have the value -1. |
| HexCodec.HexTable | gem5_src/base/remote_gdb.cc:1026-1038 | Each byte is written as its high and its low digit. |
| HexCodec.Mem2Hex | gem5_src/base/remote_gdb.cc:1026-1038 | The buffer holds the two digits of every byte and a terminating zero. |
| HexCodec.Hex2Mem | gem5_src/base/remote_gdb.cc:1040-1060 | As many bytes as there are digit pairs are read, up to the limit; the end is missing exactly when the text breaks off in the middle of a byte. |
| HexCodec.ThereAndBack | gem5_src/base/remote_gdb.cc:1026-1060 | Every byte string survives mem2hex followed by hex2mem. |
| HexCodec.BackAndThere | gem5_src/base/remote_gdb.cc:1026-1060 | Every string of hex digits survives the other way, in lower case. |
| GdbPackets.SendOnce | gem5_src/base/remote_gdb.cc:388-401 | The bytes sent are the frame of the text before its zero. |
| GdbPackets.FrameSpelled | gem5_src/base/remote_gdb.cc:388-401 | A frame is a dollar sign, the payload, a number sign and the two lower-case digits of the sum of the bytes modulo 256. |
| GdbPackets.OkFrame | gem5_src/base/remote_gdb.cc:388-401 | The payload OK is sent as $OK#9a. |
| GdbPackets.Send | gem5_src/base/remote_gdb.cc:379-405 | The frame is sent once more than it is refused. |
| GdbPackets.RefusalsSpelled | gem5_src/base/remote_gdb.cc:402-404 | The sender repeats for each minus sign, whatever its eighth bit, up to the first other byte. |
| GdbPackets.FindStart | gem5_src/base/remote_gdb.cc:418-420 | Everything before the first packet start is skipped. |
| GdbPackets.ReadData | gem5_src/base/remote_gdb.cc:422-429 | Data up to the end mark, at most maxlen characters of seven bits, are stored and summed. |
| GdbPackets.Shift | gem5_src/base/remote_gdb.cc:453-454 | The characters after a sequence number move to the front. |
| GdbPackets.Finish | gem5_src/base/remote_gdb.cc:441-461 | A packet is acknowledged exactly when the checksum test passes, and then loses a sequence number. |
| GdbPackets.Try | gem5_src/base/remote_gdb.cc:415-462 | One round of the loop refuses a packet, settles it, runs out of input, or comes to the end of the buffer with the terminating zero still to write. |
| GdbPackets.Recv | gem5_src/base/remote_gdb.cc:407-465 | The loop computes the reception of the whole input: outcome, rest, replies and buffer, for every buffer of at least maxlen characters. |
| GdbPackets.OnceExactly | gem5_src/base/remote_gdb.cc:415-461 | One round in full: when it waits for more input, when it delivers or refuses, and that a packet that is too long is refused together with one character more. |
| GdbPackets.RepliesSpelled | gem5_src/base/remote_gdb.cc:445-459 | The reply to a packet is a plus or a minus sign, as the checksum says. |
| GdbPackets.PastEndExactly | gem5_src/base/remote_gdb.cc:415-433 | The terminating zero is due behind the end of the buffer if and only if maxlen is the size of the buffer and, behind packets that are refused, one comes with maxlen or more characters before its end mark. |
| GdbPackets.FullPacket | gem5_src/base/remote_gdb.cc:430-433 | A packet of as many characters as the buffer has leads there, for every size of the buffer. |
| GdbPackets.WireRead | gem5_src/base/remote_gdb.cc:415-462 | After noise without a start mark, any delimited packet is delivered if its checksum passes and refused otherwise. |
| GdbPackets.ChecksumTest | gem5_src/base/remote_gdb.cc:441-446 | The test passes exactly for the two right digits, or for a right first digit and a wrong second character when the sum is one less than the first digit says. |
| GdbPackets.FrameReceived | gem5_src/base/remote_gdb.cc:379-465 | A frame from send arrives with the same payload after any noise, exactly when the third buffer character is not a colon; otherwise the sequence number is taken off, or the length has no meaning for payloads shorter than two. |
| GdbPackets.ColonStays | gem5_src/base/remote_gdb.cc:448-456 | A packet with a sequence number and fewer than three characters behind it leaves the colon in the buffer, and a following packet of fewer than two characters then ends without meaning. |
| GdbPackets.ColonStaysFor | gem5_src/base/remote_gdb.cc:448-456 | The packets ab:g and g, one after the other. |
| GdbPackets.RefusedAll | gem5_src/base/remote_gdb.cc:415-462 | Packets with a wrong checksum are each refused once and leave nothing behind but the buffer. |
| GdbPackets.Retransmission | gem5_src/base/remote_gdb.cc:379-465 | After any number of refused packets a good one arrives, and the sender stops after exactly one packet more than were refused. |
| GdbPackets.OneErrorNoticed | gem5_src/base/remote_gdb.cc:415-446 | A frame with one character of the payload changed is refused if and only if the character has not become an end mark whose next two characters happen to be the checksum of what came before. |
| GdbPackets.EndMarkInside | gem5_src/base/remote_gdb.cc:415-446 | What becomes of a frame in which a character has turned into an end mark. |
| GdbPackets.EighthBitIgnored | gem5_src/base/remote_gdb.cc:424-426 | A change of the eighth bit alone makes no difference. |
| GdbPackets.UnnoticedError | gem5_src/base/remote_gdb.cc:415-446 | The payload a?61 with the question mark turned into an end mark arrives as the packet a. |
| Activity.UnrolledSet | gem5_src/cpu/timebuf.hh:195-209 | Different cycles of the window lie in different slots. |
| Activity.UnrolledAdvance | gem5_src/cpu/timebuf.hh:178-190 | Moving the base and clearing one slot shifts the window by one cycle. |
| Activity.TimeBuffer.constructor | gem5_src/cpu/timebuf.hh:140-154 | A new window is empty. |
| Activity.TimeBuffer.Get | gem5_src/cpu/timebuf.hh:218-230 | Reading gives the entry of that cycle. |
| Activity.TimeBuffer.Set | gem5_src/cpu/timebuf.hh:218-223 | Writing changes that cycle and no other. |
| Activity.TimeBuffer.Advance | gem5_src/cpu/timebuf.hh:178-190 | The oldest cycle falls out and an empty newest one comes in. |
| Activity.ActivityRecorder.constructor | gem5_src/cpu/activity.cc:39-47 | The counter starts with the given surplus and nothing is outstanding. |
| Activity.ActivityRecorder.Activity | gem5_src/cpu/activity.cc:54-68 | Only the current cycle changes, and the counter still agrees. |
| Activity.ActivityRecorder.Advance | gem5_src/cpu/activity.cc:70-88 | The counter follows the cycle that falls out and is never negative without a negative surplus. |
| Activity.ActivityRecorder.ActivateStage | gem5_src/cpu/activity.cc:90-105 | The stage is on, and the counter still agrees. |
| Activity.ActivityRecorder.DeactivateStage | gem5_src/cpu/activity.cc:107-122 | The stage is off, and the counter still agrees and is never negative without a negative surplus. |
| Activity.ActivityRecorder.Reset | gem5_src/cpu/activity.cc:124-131 | Nothing is outstanding and the counter is 0. |
| Activity.ActivityRecorder.Validate | gem5_src/cpu/activity.cc:151-168 | The full scan agrees with the counter exactly when there is no surplus. |
| Activity.Simulate | gem5_src/cpu/activity.cc:54-131 | After every run from 0 the counter is the number of active cycles in the window plus the active stages, and 0 exactly when there are none. |
| Activity.Aging | gem5_src/cpu/timebuf.hh:178-190 | Activity is one cycle older after each advance, and new cycles are inactive. |
| Activity.Remembered | gem5_src/cpu/activity.cc:54-88 | What happened in a cycle is, n advances later, remembered as having happened n cycles ago. |
| Chunks.LeastSigBitStep | gem5_src/base/intmath.hh:64-69 | The lowest set bit, one bit of the word at a time. |
| Chunks.PowersOf2 | gem5_src/base/intmath.hh:71-76 | The bit trick recognises exactly the powers of two. |
| Chunks.RoundUpReaches | gem5_src/base/intmath.hh:203-209 | Rounding up an address reaches the end of its block, wrapping at the end of the address space, or stays when aligned. |
| Chunks.FirstEndReached | gem5_src/base/chunk_generator.hh:89-105 | The first chunk ends at the end of the start address's block, also when the start is aligned. |
| Chunks.TilesCover | gem5_src/base/chunk_generator.hh:44-56 | The chunks are not empty, none crosses a block boundary, and in order they are exactly the region. |
| Chunks.TilesCount | gem5_src/base/chunk_generator.hh:44-56 | There are as many chunks as blocks touched. |
| Chunks.ChunkGenerator.constructor | gem5_src/base/chunk_generator.hh:81-108 | The generator stands at the first chunk of the tiling. |
| Chunks.ChunkGenerator.Next | gem5_src/base/chunk_generator.hh:136-149 | The generator moves to the next chunk of the tiling, or is done after the last. |
| Chunks.ChunkGenerator.Complete | gem5_src/base/chunk_generator.hh:115-116 | The number of bytes before the current chunk. |
| Chunks.Collect | gem5_src/base/chunk_generator.hh:81-149 | The loop ends for every region, also one that wraps, and its chunks tile the region; with chunk size 0 there is one chunk at most. |

## Left out

- The prefetcher's pattern table, direction predictor and top level: their bodies are unfinished.
- `Access`, `LdSet`, `NldReset` and `MoveSet` have no body in the source; the model follows the comments that declare them.
- The trie's `clear` and `dump`, a width of 0 (the source shifts by the full word then), and inserting a live prefix again (the source asserts against it).
- RangeMapRuns.Simulate: an insertion that panics leaves the map as it is and the run goes on.
- `erase`, `clear`, `size` and iteration of the range map, and `isSubset`.
- AddrRanges.IntersectsExact: for a single range and a stripe of size 1 of another chunk that holds anything but its start, only `AddrRanges.SingleExact` speaks, about all ranges at once.
- Histogram.HistStor.Sample: sums and buckets are real and integer numbers without rounding or overflow, and the logarithm of a value is given with the sample, since the library computes it.
- CriticalPath.Cpa.Dump: the record counter, the index of file positions and the flush are not modelled.
- AnnotatorRuns.Simulate: counts are positive, as the queues' byte streams have no meaning otherwise.
- CriticalPath.Cpa.DoQ: the warning about large queues is not modelled, and byte counts stay within 32 bits by precondition.
- The annotator's state-machine stacks, thread contexts, serialization, symbol lookup and key file.
- BarrierProtocol.Lives: progress with more threads than the barrier counts is not stated, since such threads are not kept in step anyway.
- DecodeCompiler.Parser.ParseStmt: preprocessor directives among the statements, the text of labels and comments, and errors raised inside a format's own code are not modelled; the code a format generates for an instruction is taken to return it.
- The rest of the ISA parser: operand handling, templates, file splitting.
- GdbPackets.Recv: the input is a finite sequence of bytes and running out of it is an outcome of its own; what the write behind the end of the buffer does is not modelled, and buffers have at least three characters.
- GdbPackets.Shift: with more than three characters behind a sequence number the two regions of the source's `memcpy` overlap (remote_gdb.cc:454), which C leaves undefined; the model takes it as a copy from the front on.
- The debugger stub's command loop, breakpoints and sockets.
- Activity.ActivityRecorder.constructor: the later overwriting of the counter by `setActivityCount` is not modelled.
- TargetRegBitmap.TargetRegBitmap.Dequeue: branches are resolved oldest first, as the source assumes.
- Chunks.Collect: the chunk size is given with its exponent, which `PowersOf2` shows to be what the source's assertion accepts.
