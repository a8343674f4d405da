# Verification of the data structures and codecs of the repository

This project models, in Dafny, the parts of the repository that carry algorithms of their own, and
proves what they are for. The code is imperative, so the models are: classes and methods that change
fields, arrays and links step by step, each tied to a specification function, with lemmas about that
function beside it.

| file | what it models |
|---|---|
| `Wrappers.dfy`, `Arith.dfy` | optional values; powers of two, logarithms, masks and shifts |
| `Elements.dfy` | the structs that the list and hash macros are applied to |
| `MergeSpec.dfy` | bottom-up merge sort as a function: order, stability, permutation, cost |
| `ListSort.dfy`, `UtList.dfy` | the in-place sorts and edits of `utlist.h`, on `next` and `prev` links |
| `Load.dfy`, `Bloom.dfy`, `Buckets.dfy`, `Expansions.dfy`, `UtHash.dfy`, `HashRuns.dfy` | `uthash.h`: chains, expansion heuristic and its history, filter, application order, whole runs |
| `Kmp.dfy` | the four Knuth-Morris-Pratt routines of `utstring.h` and their two wrappers |
| `UtArray.dfy`, `ArrayRuns.dfy` | the growable array of `utarray.h`, whole runs |
| `Codec.dfy`, `BinaryIO.dfy`, `Streams.dfy`, `Tiles.dfy`, `Layout.dfy` | the byte format of `BinaryIO`, its writer and reader over a buffer, sequences of values through both, the binary form of a tile, and the same bytes position by position |
| `Accumulator.dfy` | `DataSample.h` over exact reals |
| `SaxSpec.dfy`, `SaxParser.dfy` | the three expat callbacks of `mio.c` that build a stanza tree |
| `ScheduleSpec.dfy`, `Schedule.dfy` | merging and removing scheduled events in `mio.c` |
| `DirCache.dfy` | the node cache and child lists of `mio_client.c` |

## Conventions

- Pointers to structs are references to objects; a `ghost` parameter or field names the sequence of
  objects that a list goes through, and predicates such as `IsList`, `Ordered`, `Chain` and
  `ListIs` say that the links are exactly those of that sequence.
- `UtHash.State` holds the caller's head pointer with the fields of `UT_hash_table`; `UtHash.View`
  is what it stands for: the items in application order, the key map, the chains, for each bucket
  the multiplier its count is measured against, and the log of the expansions since the table was
  made. `ValidTable` is the invariant of `HASH_FSCK` together with the load invariant, the filter
  invariant, the key map, and that the counters come from the logged expansions. The module-level
  methods are the macros; `UtHash.Table` is the pair of caller's variable and table as one object.
- The hash function, comparison functions, the square root, the clock, and what the server answers
  are parameters. A comparison is any function; order is only asked of the elements being sorted.
- A failed assertion that ends the original program is a result `ok == false`.
- The large invariants (`Ordered`, `Bucketed`, `Holds`, `ValidTable`, `Coherent`, and a few others) are predicates of one
  named value, which the verifier checks and passes on as one fact.

## Results that differ from what the code suggests

- Sorting n > 0 elements takes exactly max(1, ceil(log2 n)) sweeps (`MergeSpec.SweepCount`): the
  sweep that merges the last two runs is also the one that sees a single merge and stops, so there
  is no extra sweep at the end.
- A schedule update with id -1 that comes after an update for an unknown id is merged into the event
  just made, because a new event has id -1 until the renumbering
  (`ScheduleSpec.LateUpdateExample`). `ScheduleSpec.MergeResult` says exactly when every unknown
  update gets an event of its own.
- `utarray_erase` past the end shortens the array from its end, and with a length greater than the
  array's wraps the unsigned length around; it does what it says if and only if its range lies
  inside the array or is empty (`UtArray.GrowArray.Erase`).
- The text accumulator counts samples of weight zero, the numeric one steps over them, so text
  summaries compose under a condition only (`Accumulator.TextGroups`).
- A refresh that fails in `update_children` still moves the modification time, so the following
  calls report success without refreshing until the timeout passes (`DirCache.Cache.UpdateChildren`).
- A subscription to a node that a refresh has already found stays unlisted and unsubscribed
  (`DirCache.Cache.ProcessSubscriptions`).

## Model

| member | source | states |
|---|---|---|
| MergeSpec.SortPermutes | adapters/libs/uthash/utlist.h:108-165 | sorting keeps the elements, each as often as it was there |
| MergeSpec.SortCorrect | adapters/libs/uthash/utlist.h:102-165 | for any total preorder the result is sorted and elements that tie keep their order |
| MergeSpec.SortCost | adapters/libs/uthash/utlist.h:108-165 | n elements take at least n - 1 and at most n * ceil(log2 n) - (n - 1) comparisons |
| MergeSpec.SweepCount | adapters/libs/uthash/utlist.h:115-163 | n elements take exactly max(1, ceil(log2 n)) sweeps over the list |
| ListSort.SortPass | adapters/libs/uthash/utlist.h:120-158 | one sweep relinks the nodes in place into the next merge pass, with the comparisons and merges counted, whether or not prev links are kept |
| UtList.Sort | adapters/libs/uthash/utlist.h:108-304 | LL_SORT2, DL_SORT2 and CDL_SORT2 relink the original nodes into the sorted order, leave next, prev, tail and circular links exactly formed, and take the sweeps and comparisons counted by the specification |
| UtList.LlPrepend | adapters/libs/uthash/utlist.h:312-316 | the list is the new node and then the old list |
| UtList.LlConcat | adapters/libs/uthash/utlist.h:321-331 | two lists become one, either of which may be empty |
| UtList.LlAppend | adapters/libs/uthash/utlist.h:336-347 | the list is the old list and then the new node |
| UtList.LlDelete | adapters/libs/uthash/utlist.h:352-366 | the node is taken out; a node that is not in the list changes nothing |
| UtList.DlPrepend | adapters/libs/uthash/utlist.h:507-517 | prepending keeps prev links and the tail stored in the head |
| UtList.DlAppend | adapters/libs/uthash/utlist.h:522-534 | appending keeps prev links and the tail stored in the head |
| UtList.DlConcat | adapters/libs/uthash/utlist.h:539-552 | concatenation keeps prev links and the tail stored in the head |
| UtList.DlDelete | adapters/libs/uthash/utlist.h:557-573 | deleting any position keeps prev links and the tail stored in the head |
| UtList.CdlPrepend | adapters/libs/uthash/utlist.h:651-663 | prepending keeps the circle closed both ways |
| UtList.CdlDelete | adapters/libs/uthash/utlist.h:668-677 | deleting any position keeps the circle closed both ways |
| Arith.MaskIsMod | adapters/libs/uthash/uthash.h:198-201 | masking with 2^k - 1 is the remainder by 2^k |
| Arith.ShiftIsDiv | adapters/libs/uthash/uthash.h:677-679 | shifting right by k divides by 2^k |
| Arith.CeilLog2Least | adapters/libs/uthash/utlist.h:115-163 | the logarithm that the sweeps and comparisons are counted by is the least k with r <= 2^k |
| Load.LoadBound | adapters/libs/uthash/uthash.h:611-622 | while every count is capped by its multiplier and the multipliers sum to at most the buckets, there are fewer than 20 items per bucket |
| Load.ExpansionLoads | adapters/libs/uthash/uthash.h:677-700 | the multipliers an expansion sets sum to at most the buckets, however the items fall, and the counts are capped by them again |
| Load.IdealSmall | adapters/libs/uthash/uthash.h:677-679 | at fewer than 20 items per bucket the next ideal length is between 1 and 10 |
| Load.NonidealCount | adapters/libs/uthash/uthash.h:688-689 | nonideal_items is the number of positions that have the ideal length or more before them in their chain |
| Load.QuotientIsMult | adapters/libs/uthash/uthash.h:688-691 | the quotient m that an overfull bucket gets is the one with ideal * m <= count < ideal * (m + 1) |
| Bloom.Add | adapters/libs/uthash/uthash.h:107-128 | the bit of the hash is set and no bit is cleared |
| Bloom.Test | adapters/libs/uthash/uthash.h:124-131 | the test says exactly whether the bit of the hash is set |
| Bloom.SetIs | adapters/libs/uthash/uthash.h:118-119 | a bit of the filter is bit idx % 8, from the low end, of byte idx / 8 |
| Bloom.BitOfIs | adapters/libs/uthash/uthash.h:107-125 | the bit of a hash value is its remainder by 2^nbits, and the bytes are as many as the bits need |
| Buckets.SlotDoubles | adapters/libs/uthash/uthash.h:681-700 | after doubling, an item of bucket i belongs in i or i + num_buckets |
| UtHash.MapsUnique | adapters/libs/uthash/uthash.h:94-105 | the map that a table stands for is determined by its items, whose keys are all different |
| Buckets.PushFront | adapters/libs/uthash/uthash.h:611-617 | the item becomes the head of its chain, with hh_next and hh_prev of the chain right and all other buckets as they were |
| Buckets.FindInBkt | adapters/libs/uthash/uthash.h:597-608 | the item found has the key, and NULL means that no item of the chain has it |
| Buckets.DelInBkt | adapters/libs/uthash/uthash.h:625-635 | exactly that item leaves its chain, with links, head and count right |
| Expansions.NoexpandExactly | adapters/libs/uthash/uthash.h:702-710 | in the expansions of a table, in order, noexpand becomes 1 exactly at the second of two consecutive ones that leave more than half of the items nonideal |
| Expansions.LoggedCounters | adapters/libs/uthash/uthash.h:666-712 | counters that come from a log of expansions have noexpand 1 if and only if the last two were ineffective, and 32 * 2^n buckets after n of them |
| Expansions.LoggedNext | adapters/libs/uthash/uthash.h:611-622 | pushing an item, with the expansion it causes if any, keeps the counters those of the log; once noexpand is 1 neither counters nor log change |
| Expansions.FirstStays | adapters/libs/uthash/uthash.h:611-622 | the first item of a table does not expand it: 32 buckets, one item, and all other counters 0 |
| Expansions.ExpandedMults | adapters/libs/uthash/uthash.h:688-691 | after an addition that expanded the table, expand_mult is 0 for every bucket that is not over the ideal length, and how many times over it holds the ideal for every other |
| Buckets.Redistribute | adapters/libs/uthash/uthash.h:680-700 | the loops of an expansion move every item once into its bucket of the new array, losing and duplicating none, count exactly the items beyond the ideal length, and leave on each bucket its count and its multiple of the ideal |
| UtHash.IdealLength | adapters/libs/uthash/uthash.h:677-679 | shift and mask compute the ceiling of items over doubled buckets |
| UtHash.ExpandBuckets | adapters/libs/uthash/uthash.h:666-712 | an expansion doubles the buckets, keeps the items, sets ideal_chain_maxlen, nonideal_items, ineff_expands and noexpand as documented, and leaves expand_mult 0 on every bucket within the ideal and the whole multiples of the ideal on every other |
| UtHash.ExpandedLoadOk | adapters/libs/uthash/uthash.h:611-622 | an expansion at fewer than 20 items per bucket restores the load invariant |
| UtHash.AddToBkt | adapters/libs/uthash/uthash.h:611-622 | adding to a bucket keeps chains, counts and the load invariant; the table expands exactly when the item is the (expand_mult + 1) * 10th of its bucket, or a later one, and noexpand is not 1, and otherwise only that chain changes |
| UtHash.InItsBucket | adapters/libs/uthash/uthash.h:198-201 | in every valid table an item is in bucket b if and only if it is in the table and the remainder of its hash value by the number of buckets is b |
| UtHash.AppendItem | adapters/libs/uthash/uthash.h:183-187 | the application-order list gains the item at its tail |
| UtHash.RemoveItem | adapters/libs/uthash/uthash.h:226-242 | the application-order list loses the item, wherever it stands, with head and tail right |
| UtHash.SortItems | adapters/libs/uthash/uthash.h:719-804 | the application-order list is relinked into the stable sorted order with next, prev, head and tail right, in the sweeps and calls of cmp that the specification counts |
| UtHash.HashAdd | adapters/libs/uthash/uthash.h:173-196 | adding a new key keeps the whole invariant, appends to the application order, extends the key map, and pushes the item onto the chains of the table that was there, or of a new one with the counters of HASH_MAKE_TABLE; with noexpand 1 all counters but the number of items stay |
| UtHash.HashFind | adapters/libs/uthash/uthash.h:94-105 | the answer is the map's, with or without the filter |
| UtHash.HashDelete | adapters/libs/uthash/uthash.h:215-248 | deleting keeps the whole invariant and removes exactly that item from order, map and chain, down to the table itself for the last one; otherwise the arrays, the expansions and all counters but the number of items stay |
| UtHash.HashReplace | adapters/libs/uthash/uthash.h:163-171 | the item that had the key, if any, is handed back and leaves its chain, and the new one is pushed and takes its place at the end of the order, in a table made anew if the only item was replaced |
| UtHash.HashSort | adapters/libs/uthash/uthash.h:719-804 | sorting keeps the whole invariant, the key map, the chains, the counters and the expansions, and puts the application order into the sorted order at the cost of the specification |
| UtHash.Table.constructor | adapters/libs/uthash/uthash.h:179-182 | a table that was never added to stands for the empty map |
| UtHash.Table.Add | adapters/libs/uthash/uthash.h:173-196 | HASH_ADD on the caller's variable: order, map, chains, counters and expansions, also of a first item |
| UtHash.Table.Find | adapters/libs/uthash/uthash.h:94-105 | HASH_FIND on the caller's variable agrees with the map |
| UtHash.Table.Delete | adapters/libs/uthash/uthash.h:215-248 | HASH_DELETE on the caller's variable: order, map, chains, and counters that stay unless the last item went |
| UtHash.Table.DeleteKey | adapters/libs/uthash/uthash.h:163-171 | finding and deleting by key removes the key's item from map and order; without such an item nothing changes |
| UtHash.Table.Replace | adapters/libs/uthash/uthash.h:163-171 | HASH_REPLACE on the caller's variable: the item handed back, order, map, chains, counters and expansions |
| UtHash.Table.Sort | adapters/libs/uthash/uthash.h:719-804 | HASH_SRT on the caller's variable: only head, tail and the order change, with the sweeps and calls of cmp counted |
| HashRuns.Run | adapters/libs/uthash/uthash.h:94-248 | any run of replaces, deletes, finds and sorts from no table at all gives the answers, map and order of the plain specification and a valid, bounded table, whose noexpand is 1 if and only if its last two expansions were ineffective |
| HashRuns.WellLoaded | adapters/libs/uthash/uthash.h:611-622 | in every valid table there are fewer than 20 items per bucket unless noexpand is set, ideal_chain_maxlen is at most 10, noexpand is 1 if and only if the last two expansions were ineffective, and n expansions have made 32 * 2^n buckets |
| HashRuns.RunFrom | adapters/libs/uthash/uthash.h:94-248 | any run on any valid table gives the answers, map and order of the plain specification; unless it takes out the last item, the expansions are only added to, and if noexpand was 1 before the run it is 1 after it, with all counters but the number of items the same |
| Kmp.BuildTable | adapters/libs/uthash/utstring.h:156-192 | the table is the strong failure function with the longest border at its end, and the inner loop runs at most needle-length times in all |
| Kmp.Find | adapters/libs/uthash/utstring.h:236-265 | the least position of the needle, or -1 exactly when there is none, with at most haystack-length fallbacks in all |
| Kmp.BuildTableR | adapters/libs/uthash/utstring.h:196-232 | the mirrored table is the strong failure function of the mirrored needle, in linear time |
| Kmp.FindR | adapters/libs/uthash/utstring.h:269-299 | the greatest position of the needle, or -1 exactly when there is none, in linear time |
| Kmp.OccursMirrored | adapters/libs/uthash/utstring.h:269-299 | occurrences in mirrored strings are the mirrored occurrences |
| Kmp.UtstringFind | adapters/libs/uthash/utstring.h:303-345 | the least position at or after the start, counted from the end when negative, or -1 exactly when there is none |
| Kmp.UtstringFindR | adapters/libs/uthash/utstring.h:349-387 | the greatest position of an occurrence wholly at or before the start, or -1 exactly when there is none |
| UtArray.Grown | adapters/libs/uthash/utarray.h:87-92 | the doubling loop reaches the need, at least doubles when it grows, and stays below twice the need beyond 8 |
| UtArray.ResizedAt | adapters/libs/uthash/utarray.h:150-169 | element by element: padding keeps what there is and puts zeros behind it, cutting keeps the beginning |
| UtArray.InsertedAt | adapters/libs/uthash/utarray.h:117-148 | element by element: what stands before, in and behind an insertion, also past the end |
| UtArray.ErasedAt | adapters/libs/uthash/utarray.h:175-188 | element by element: what stands before and behind an erasure inside the array |
| UtArray.EraseExact | adapters/libs/uthash/utarray.h:175-188 | erasing removes the given range if and only if the range lies inside the array or is empty |
| UtArray.ErasePastEnd | adapters/libs/uthash/utarray.h:175-188 | an array from which erasing a range past the end takes an element outside the range |
| UtArray.EraseInserted | adapters/libs/uthash/utarray.h:117-188 | erasing what was inserted gives back the padded array |
| UtArray.GrowArray.constructor | adapters/libs/uthash/utarray.h:59-62 | a new array is empty and has moved nothing |
| UtArray.GrowArray.Reserve | adapters/libs/uthash/utarray.h:87-92 | room is made without changing the contents, by exactly the doublings needed, and what growing has moved in all stays within twice the largest length |
| UtArray.GrowArray.PushBack | adapters/libs/uthash/utarray.h:94-98 | the contents gain the element at the end, and room is made for it |
| UtArray.GrowArray.PopBack | adapters/libs/uthash/utarray.h:100-103 | the contents lose the last element |
| UtArray.GrowArray.ExtendBack | adapters/libs/uthash/utarray.h:105-110 | the contents gain a zero at the end, and room is made for it |
| UtArray.GrowArray.Get | adapters/libs/uthash/utarray.h:114-115 | the element at a position, or nothing past the end |
| UtArray.GrowArray.Resize | adapters/libs/uthash/utarray.h:150-169 | the contents are cut or padded with zeros to the length |
| UtArray.GrowArray.Insert | adapters/libs/uthash/utarray.h:117-127 | the element stands at its position, after padding with zeros when that lies past the end, with room made for the padding and then for the element |
| UtArray.GrowArray.InsertArray | adapters/libs/uthash/utarray.h:129-148 | the other array's elements stand at the position, after padding; an empty array changes nothing, and an array may be put into itself at or past its end |
| UtArray.GrowArray.Concat | adapters/libs/uthash/utarray.h:171-173 | the contents gain the other array's, which may be the array itself |
| UtArray.GrowArray.Erase | adapters/libs/uthash/utarray.h:175-188 | what the length becomes for any range, past the end and past zero, and the range is removed if and only if it lies inside the array or is empty |
| UtArray.GrowArray.Clear | adapters/libs/uthash/utarray.h:194-204 | the contents are empty |
| ArrayRuns.RunFrom | adapters/libs/uthash/utarray.h:87-204 | any sequence of operations on an array, also with itself and with other arrays, leaves the contents of the specification |
| ArrayRuns.Run | adapters/libs/uthash/utarray.h:87-204 | over any sequence of operations on a new array growing moves at most twice as many elements as the largest length reached, and the capacity is at most twice that length, or 8 |
| Codec.WordRoundTrip | services/datastore/bt_datastore/BinaryIO.h:31-51 | four bytes of a uint32 are read back, modulo 2^32 |
| Codec.IndexRoundTrip | services/datastore/bt_datastore/BinaryIO.h:43-51 | an index struct is read back from its 24 bytes whatever its padding holds |
| Codec.ComposeDecompose | services/datastore/bt_datastore/BinaryIO.cpp:5-40 | composing undoes decomposing through the cumulative text offsets when these fit in 32 bits |
| Codec.WriteStringLength | services/datastore/bt_datastore/BinaryIO.cpp:80-82 | a string takes its length, four bytes, and at most three more, a multiple of four in all |
| Codec.VectorRoundTrip | services/datastore/bt_datastore/BinaryIO.h:31-41 | a vector is read back if and only if its length in bytes is below 2^32, and shorter otherwise |
| Codec.TextRoundTrip | services/datastore/bt_datastore/BinaryIO.cpp:67-82 | a string is read back if and only if its length is below 2^32, and cut short otherwise |
| Codec.SamplesRoundTrip | services/datastore/bt_datastore/BinaryIO.cpp:48-63 | string samples are read back if and only if their indexes and their joined texts are each below 2^32 bytes |
| Codec.ValueRoundTrip | services/datastore/bt_datastore/BinaryIO.h:31-51 | every kind of value takes exactly its write_length, and is read back if and only if it fits |
| Codec.AllRoundTrip | services/datastore/bt_datastore/BinaryIO.h:31-88 | any sequence of values takes the sum of the write lengths and is read back equal and in order, to the end |
| Layout.WordLayout | services/datastore/bt_datastore/BinaryIO.h:43-47 | a uint32 is four bytes, the lowest first |
| Layout.VectorLayout | services/datastore/bt_datastore/BinaryIO.h:31-35 | the bytes of a vector are its length in bytes and then its values, in order |
| Layout.VectorRead | services/datastore/bt_datastore/BinaryIO.h:72-79 | any bytes are read as a vector if and only if their first four give a multiple of the size that is all there |
| Layout.ItemRead | services/datastore/bt_datastore/BinaryIO.h:72-79 | value i that is read are the bytes at 4 + i * size |
| Layout.TextLayout | services/datastore/bt_datastore/BinaryIO.cpp:67-73 | the bytes of a string are its length, its characters, and at most three zeros up to a multiple of four |
| Layout.TextRead | services/datastore/bt_datastore/BinaryIO.cpp:115-124 | any bytes are read as a string if and only if the padded length that their first four give is all there |
| Layout.SamplesLayout | services/datastore/bt_datastore/BinaryIO.cpp:5-54 | the bytes of string samples are a vector of 24-byte records of time, beginning of the text, weight and deviation, and then all texts as one string |
| Layout.SamplesRead | services/datastore/bt_datastore/BinaryIO.cpp:106-112 | any bytes are read as string samples if and only if the records and the text are all there and no text begins past the end |
| Layout.SampleRead | services/datastore/bt_datastore/BinaryIO.cpp:26-40 | sample i that is read has the time, weight and deviation of record i, and the text from its beginning to the next, or to the end when the next does not lie behind it inside the text |
| Layout.TileLayout | services/datastore/bt_datastore/Tile.cpp:13-22 | the bytes of a tile are header, double samples, string samples and ranges, in this order |
| Layout.AllLayout | services/datastore/bt_datastore/BinaryIO.h:14-51 | the bytes of value i of a sequence begin behind the write lengths of the values before it |
| BinaryIO.DecomposeSamples | services/datastore/bt_datastore/BinaryIO.cpp:5-24 | the loops compute the 32-bit offsets and the joined text |
| BinaryIO.ComposeSamples | services/datastore/bt_datastore/BinaryIO.cpp:26-40 | the loop takes the texts apart again, and fails exactly when an offset lies past the text |
| BinaryIO.BufferFilled | services/datastore/bt_datastore/BinaryIO.cpp:42-45 | if the writes of the values into a buffer of exactly their write lengths have their effect, no assertion fires, the writer ends at eof, and the buffer decodes to the values |
| Streams.WriteValue | services/datastore/bt_datastore/BinaryIO.h:21-47 | any kind of value is written as its encoding, and fails if and only if that does not fit |
| Streams.WriteAll | services/datastore/bt_datastore/BinaryIO.h:31-47 | any sequence of writes leaves the encoding of the sequence, and fails if and only if that does not fit |
| Streams.TotalLength | services/datastore/bt_datastore/BinaryIO.h:36-51 | the write lengths as the loops compute them add up to the length of the encoding |
| Streams.ReadValue | services/datastore/bt_datastore/BinaryIO.h:65-88 | any kind of value is decoded, and fails exactly when it does not decode |
| Streams.ReadAll | services/datastore/bt_datastore/BinaryIO.h:65-88 | any sequence of reads decodes the sequence, and fails exactly when it does not decode |
| Streams.WriteThenRead | services/datastore/bt_datastore/BinaryIO.h:14-94 | any values that fit, written into a buffer of exactly their write lengths and read back, fire no assertion, end writer and reader at eof, and come back equal and in order |
| BinaryIO.BinaryWriter.constructor | services/datastore/bt_datastore/BinaryIO.cpp:42-43 | a writer starts at the beginning of its range |
| BinaryIO.BinaryWriter.WriteBytes | services/datastore/bt_datastore/BinaryIO.cpp:86-90 | the assertion holds if and only if the bytes fit; then they are all that changes and the pointer is past them |
| BinaryIO.BinaryWriter.WriteZeros | services/datastore/bt_datastore/BinaryIO.cpp:92-96 | the same for zeros |
| BinaryIO.BinaryWriter.WriteLengthOfVector | services/datastore/bt_datastore/BinaryIO.h:36-41 | four bytes and the sizes of the values |
| BinaryIO.BinaryWriter.WriteLengthOfSamples | services/datastore/bt_datastore/BinaryIO.cpp:56-63 | the length of the index vector and of the joined text |
| BinaryIO.BinaryWriter.Write | services/datastore/bt_datastore/BinaryIO.h:43-47 | a fixed-size value is written as its bytes |
| BinaryIO.BinaryWriter.WriteVector | services/datastore/bt_datastore/BinaryIO.h:31-35 | a vector is written as its encoding, and fails if and only if that does not fit |
| BinaryIO.BinaryWriter.WriteText | services/datastore/bt_datastore/BinaryIO.cpp:67-73 | a string is written as its encoding, and fails if and only if that does not fit |
| BinaryIO.BinaryWriter.WriteSamples | services/datastore/bt_datastore/BinaryIO.cpp:48-54 | string samples are written as their encoding, and fail if and only if that does not fit |
| BinaryIO.BinaryReader.constructor | services/datastore/bt_datastore/BinaryIO.cpp:100-101 | a reader starts at the beginning of its range |
| BinaryIO.BinaryReader.ReadBytes | services/datastore/bt_datastore/BinaryIO.cpp:128-132 | the next bytes, if and only if there are enough |
| BinaryIO.BinaryReader.SkipBytes | services/datastore/bt_datastore/BinaryIO.cpp:134-137 | the pointer moves on, if and only if there are enough bytes |
| BinaryIO.BinaryReader.Read | services/datastore/bt_datastore/BinaryIO.h:83-88 | a fixed-size value, if and only if there are enough bytes |
| BinaryIO.BinaryReader.ReadVector | services/datastore/bt_datastore/BinaryIO.h:72-79 | the loop decodes a vector, and fails exactly on a length that is no multiple of the size or too long |
| BinaryIO.BinaryReader.ReadText | services/datastore/bt_datastore/BinaryIO.cpp:115-124 | decodes a string and skips its padding, or fails exactly when it is too long |
| BinaryIO.BinaryReader.ReadSamples | services/datastore/bt_datastore/BinaryIO.cpp:106-112 | decodes string samples, or fails exactly when a part or an offset is wrong |
| Tiles.TileRoundTrip | services/datastore/bt_datastore/Tile.cpp:13-48 | a tile is read back from its binary form, which has exactly binary_length bytes, if and only if its samples fit in 32-bit lengths |
| Tiles.OlderTiles | services/datastore/bt_datastore/Tile.cpp:31-48 | a binary form that ends after the double samples or after the string samples is read with the rest cleared |
| Tiles.Tile.constructor | services/datastore/bt_datastore/Tile.h:15 | a new tile has the bytes of the magic number and the version in its header and nothing else |
| Tiles.Tile.BinaryLength | services/datastore/bt_datastore/Tile.cpp:24-29 | the sum of the four write lengths |
| Tiles.Tile.ToBinary | services/datastore/bt_datastore/Tile.cpp:13-22 | the four writes into a buffer of binary_length bytes fire no assertion and fill it with the encoding |
| Tiles.Tile.FromBinary | services/datastore/bt_datastore/Tile.cpp:31-48 | the reads give what the bytes decode to, and fail exactly when they do not decode |
| Accumulator.NumberAccumulator.constructor | services/datastore/bt_datastore/DataSample.h:37 | an accumulator starts at zero |
| Accumulator.NumberAccumulator.AddAccumulator | services/datastore/bt_datastore/DataSample.h:61-66 | totals add up, also when an accumulator is added to itself |
| Accumulator.NumberAccumulator.AddSample | services/datastore/bt_datastore/DataSample.h:68-80 | a sample adds what it stands for, also when it has no weight |
| Accumulator.NumberAccumulator.AddSamples | services/datastore/bt_datastore/DataSample.h:44-80 | adding any samples adds the sum of what they stand for; from a possible total, and for non-negative weights, the total stays possible, so that get_sample has a square root to take |
| Accumulator.NumberAccumulator.AddSummary | services/datastore/bt_datastore/DataSample.h:39-55 | adding get_sample of an accumulator leaves the totals that adding the accumulator leaves |
| Accumulator.NumberAccumulator.Summarized | services/datastore/bt_datastore/DataSample.h:36-96 | get_sample after adding any samples of positive total weight has their whole weight, the weighted means of times and values, and the standard deviation of all the readings, as sums written out |
| Accumulator.NumberAccumulator.GetSample | services/datastore/bt_datastore/DataSample.h:92-96 | the summary of any weight but zero is one sample that stands for everything added |
| Accumulator.VarianceNotNegative | services/datastore/bt_datastore/DataSample.h:92-96 | the variance under the square root is not negative |
| Accumulator.TotalsPossible | services/datastore/bt_datastore/DataSample.h:68-80 | for non-negative weights weight * sumsq >= sum^2 after any samples |
| Accumulator.PlusPossible | services/datastore/bt_datastore/DataSample.h:61-66 | that inequality survives adding accumulators |
| Accumulator.SummaryWorth | services/datastore/bt_datastore/DataSample.h:92-96 | adding get_sample of an accumulator whose weight is not zero and whose variance is not negative is adding the accumulator |
| Accumulator.SummaryMeans | services/datastore/bt_datastore/DataSample.h:68-96 | weight * stddev^2 of a summary is the sum of weight * (stddev^2 + (value - mean)^2) over its samples, and time and value are the weighted means |
| Accumulator.Condensed | services/datastore/bt_datastore/DataSample.h:39-80 | summaries of groups, and of groups of groups to any depth, are worth the sum of all raw samples |
| Accumulator.TextAccumulator.constructor | services/datastore/bt_datastore/DataSample.h:37 | a text accumulator starts empty |
| Accumulator.TextAccumulator.AddSample | services/datastore/bt_datastore/DataSample.h:82-90 | a text sample is kept, agrees, or turns the text into the marker for several |
| Accumulator.TextAccumulator.GetSample | services/datastore/bt_datastore/DataSample.h:98-100 | the summary has the mean time, the text and the whole weight |
| Accumulator.FoldOntoNothing | services/datastore/bt_datastore/DataSample.h:82-90 | the text is the common text from the first sample with weight on, or the marker |
| Accumulator.TextSums | services/datastore/bt_datastore/DataSample.h:82-90 | a text accumulator holds the sums of the weights and of time * weight |
| Accumulator.TextGroups | services/datastore/bt_datastore/DataSample.h:82-100 | adding a text summary equals adding its samples if and only if no sample without weight disagrees before the first one with weight |
| Accumulator.TextGroupsExample | services/datastore/bt_datastore/DataSample.h:82-100 | a text summary that is not worth its samples |
| Accumulator.TextGroupsCompose | services/datastore/bt_datastore/DataSample.h:82-100 | with positive weights text summaries always compose |
| SaxSpec.FeedDocument | libs/c/libMIO/mio.c:187-264 | the callbacks take any document to depth 0 and the cursor on a root equal to it, without the root's own text |
| SaxSpec.ParsedIsFull | libs/c/libMIO/mio.c:251-252 | nothing is lost if and only if the root has no text of its own |
| SaxSpec.AttrsGiven | libs/c/libMIO/mio.c:174-176 | the attributes have exactly the names of the pairs, each with the value of the last pair of that name |
| SaxSpec.ParsedCopies | libs/c/libMIO/mio.c:187-264 | the parsed tree has the root's name and attributes and, in order, a copy of each of its child elements, down to names, attributes, texts and children |
| SaxParser.Parser.constructor | libs/c/libMIO/mio.c:187-204 | a parser starts without a stanza |
| SaxParser.Parser.SetAttributes | libs/c/libMIO/mio.c:167-177 | attributes are set pair by pair: exactly the names of the pairs, each with the last value given for it |
| SaxParser.Parser.StartElementHandler | libs/c/libMIO/mio.c:187-219 | a start opens a child under the cursor and moves the cursor to it |
| SaxParser.Parser.EndElementHandler | libs/c/libMIO/mio.c:228-237 | an end moves the cursor to the parent, and leaves it on the root at the last one |
| SaxParser.Parser.CharactersHandler | libs/c/libMIO/mio.c:247-264 | text below the root becomes a child of the cursor, text of the root is dropped |
| SaxParser.Parse | libs/c/libMIO/mio.c:187-264 | feeding the events of a document leaves the root of a new object tree that denotes the parsed document, in which every stanza below the root has its parent and the root has the document's name and attributes |
| SaxParser.OnePlace | libs/c/libMIO/mio.c:209-262 | no stanza of such a tree stands in two places: different ways down from the root lead to different stanzas |
| ScheduleSpec.RemoveTakesPosition | libs/c/libMIO/mio.c:605-626 | removing id k from a numbered list takes out position k and nothing else; other ids change nothing |
| ScheduleSpec.MergeResult | libs/c/libMIO/mio.c:635-677 | after a merge ids are positions, event k has taken its updates one after another, and each unknown update has an event of its own, in order, if and only if none with id -1 comes late |
| ScheduleSpec.UnknownResult | libs/c/libMIO/mio.c:638-647 | of the updates that name no event the first makes one, every later one with id -1 is merged into that, and each other one makes its own, in order |
| ScheduleSpec.MergeOneMeans | libs/c/libMIO/mio.c:638-674 | in any list an update goes to the first event with its id, of which it replaces the fields that it gives, or to a new event at the end |
| ScheduleSpec.RemoveMeans | libs/c/libMIO/mio.c:605-626 | from any list the first event with the id is removed and the rest is numbered anew |
| ScheduleSpec.NonNegativeNoneLate | libs/c/libMIO/mio.c:638-647 | updates with non-negative ids always meet that condition |
| ScheduleSpec.LateUpdateExample | libs/c/libMIO/mio.c:638-647 | two updates that end up in one new event |
| ScheduleSpec.UpdatedFields | libs/c/libMIO/mio.c:648-673 | each field is the last value that is not NULL among the original and its updates |
| ScheduleSpec.RunNumbered | libs/c/libMIO/mio.c:605-677 | any run of merges and removals keeps ids equal to positions |
| Schedule.Event.constructor | libs/c/libMIO/mio.c:2539-2544 | a new event has id -1 and no fields |
| Schedule.TailGet | libs/c/libMIO/mio.c:2575-2583 | the last event, or NULL |
| Schedule.RenumberEvents | libs/c/libMIO/mio.c:588-595 | ids become positions and nothing else changes |
| Schedule.Search | libs/c/libMIO/mio.c:638-641 | the first event with the id, and the one before it |
| Schedule.Unlink | libs/c/libMIO/mio.c:609-620 | the list goes on without the event, whose place may be the head |
| Schedule.Remove | libs/c/libMIO/mio.c:605-626 | the remaining list is the specified one, in the same nodes |
| Schedule.CopyFields | libs/c/libMIO/mio.c:648-673 | fields that the update gives are replaced, the others kept, a recurrence as a whole |
| Schedule.MergeEvent | libs/c/libMIO/mio.c:638-674 | one update changes one event or appends a new one at the tail |
| Schedule.MergeEvents | libs/c/libMIO/mio.c:635-677 | the list is the specified merge, the old nodes stay in place, and the updates are left as they were |
| DirCache.ReusedFirst | tools/mioFS/mio_client.c:361-384 | a child that is still listed keeps its cell, and an id that was not among the children gets a new one |
| DirCache.NamedParts | tools/mioFS/mio_client.c:350-353 | the listed ids are those of the entries that have one, entry by entry |
| DirCache.AdmitMeans | tools/mioFS/mio_client.c:96-131 | the subscriptions are gone through up to the first new id of unknown type, and add the ids not known before, each once, in the order of their first mention |
| DirCache.CollectionsNext | tools/mioFS/mio_client.c:124-131 | the ids listed a second time are those of collections, in order |
| DirCache.Cache.constructor | tools/mioFS/mio_client.c:215-292 | a new cache knows no nodes; its root lists my_subscriptions, my_collections and collections, which are empty |
| DirCache.Cache.Search | tools/mioFS/mio_client.c:57-60 | the first child with the id, or NULL |
| DirCache.Cache.Lookup | tools/mioFS/mio_client.c:366-380 | the one node for an id, made with the type that the server reports, unsubscribed and never modified, and registered, if there was none |
| DirCache.Cache.TakeChild | tools/mioFS/mio_client.c:361-384 | the old cell for the id leaves the old list, or a new cell for the node of that id is made, a new node having the type that the server reports |
| DirCache.Cache.AddChild | tools/mioFS/mio_client.c:361-385 | the new list gains the cell for the id and the old list loses it |
| DirCache.Cache.RefreshEach | tools/mioFS/mio_client.c:350-388 | after the loop the children are the listed ids in order, each the node for its id, with old cells used again |
| DirCache.Cache.UpdateChildren | tools/mioFS/mio_client.c:322-403 | a refresh makes the children follow the server's listing, keeps all nodes and all other lists, one node for each id; the nodes that it makes have the type that the server reports, are not subscribed and have no children; one that is not due or fails changes no list |
| DirCache.Cache.ProcessSubscriptions | tools/mioFS/mio_client.c:89-139 | success if and only if every listed id was known or has a type that the server knows; the new ids before the first that has not are registered as subscribed nodes of that type and listed in the order of their first mention, collections once more; known nodes are passed over, and a response or packet of another type is an error that changes nothing |

## Left out

- HASH_SELECT does not keep the tail or the filter of its destination (`uthash.h:811-847`), so the invariant proved here does not extend to it.
- The concrete hash functions are not part of this model; a table is given any deterministic function of the key.
- Allocation failure, freed memory, void-pointer casts, hash-handle offsets and the VS2008 variants are not part of this model; nodes are typed.
- Integer overflow of counters, lengths and needle tables at 2^31 or 2^32 is not modelled, except in `BinaryIO`, where truncation to 32 bits is written out.
- UtHash.HashAdd: asks for a key that is not in the table yet, because with duplicates HASH_FIND depends on the chain order, which expansion reverses; the order inside a chain is not part of the contract.
- UtHash.HashDelete: does not model the freeing of the table with the last item; the head becomes null and the old arrays are no longer referred to.
- UtArray.GrowArray.InsertArray: does not model inserting an array into itself before its end, where memcpy would read and write overlapping memory, which C leaves undefined.
- UtArray.GrowArray.Erase: asks for a length that an unsigned int can hold.
- UtArray init, copy and destructor callbacks, sorting, searching and iteration are not part of this model.
- Tiles.Tile.ToBinary: does not model the fields of header, double samples and ranges, which are structs written as their bytes; inserting samples into a tile is left out.
- BinaryIO doubles and floats are blocks of bytes, words are little-endian, and one value stands for the padding of every index struct of a vector; loops count with unbounded integers.
- Accumulator rounding is not modelled; sums are exact and the square root is any function s with s >= 0 and s * s = v.
- Accumulator.NumberAccumulator.GetSample: does not model the NaN or infinity that the original gives for zero weight or a negative variance; real numbers have neither.
- DataRanges and its JSON form are not part of this model.
- SaxParser takes a whole element tree; expat, malformed input, libstrophe and reference counting are not part of this model.
- Schedule.MergeEvents: asks for disjoint lists and for a list to merge into unless there are no updates, where the original dereferences NULL; a recurrence is a value, since it is only ever replaced by a fresh copy.
- DirCache.Cache.ProcessSubscriptions: the server's answer about a node's type is a function of its id, and access times are left out.
- The threads, timeouts, requests and XMPP stanzas of libMIO are not part of this model, nor are mio_meta_merge and mio_reference_remove.
- The device adapters, the datastore server around BinaryIO, the file-system glue of mioFS, the portal and the scripts are not part of this model.
