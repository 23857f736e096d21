# c-utils containers in Dafny

A model of the container core of the c-utils C library, with proofs about it:

- the growable list of `list.c`;
- the open-addressed hash map of `map.c`, with its insertion-order list and iterators;
- the string helpers of `str.c` that the containers rely on: `string_copy`,
  `string_duplicate`, `string_split_len`, `string_split`, `string_join`,
  `string_lower` and `string_upper`.

The modules follow the library's structure.

- `Common`: `Option`, `Outcome`, bytes, `u32`, the 2^64 word modulus, and the hash function type.
- `Bits`: powers of two and the bitwise `&`.
- `Probing`: `generate_index` and the proof that its probe sequence visits every bucket.
- `CStrings`: NUL-terminated byte buffers.
- `Values`: the item kinds and the list/map datatypes.
- `Items`: `item_init`, `list_copy`, `map_copy` and list growth.
- `Lists`: `list.c`.
- `Maps`: `map.c`.
- `Splitting`: split and join.

How the C state is represented:

- A C list is a sequence of items plus its slot count.
- A map is an arena. Buckets hold node identities, and `heap` maps identities to nodes.
- The doubly linked insertion order is the sequence `order`, plus the `first`/`last` anchors. The anchors are kept as fields of their own because `map_remove` can leave `last` naming a freed node.
- Operations are pure functions from the old state to the new one.
- An operation that can fail returns an `Outcome`: the C `bool` and the state afterwards. A failed copy can still leave a grown container behind, as in C.

The hash map's probing is the part with the most proof work:

- `generate_index` is a linear congruential step with the PCG multiplier.
- `Probing` proves the Hull–Dobell full-period theorem for it on power-of-two tables.
- From that, `Maps` proves the following:
  - every lookup finds a stored key;
  - `map_set` and `map_remove` keep the table invariant;
  - setting a key and getting it back returns the stored value;
  - a set or remove leaves other keys alone.
- Removal leaves no tombstone. A key stored past the removed node's bucket can therefore be added a second time. `Maps.DuplicateAfterHole` states this behaviour of the code.

## Model

| member | source | states |
|---|---|---|
| Values.Ordinal | list.h:12-27 | the enumerator values: reserved error is 11, reserved empty is 12, all below 13 |
| Values.FromOrdinal | map.h:13-28 | `ltype` and `mtype` share one enumeration: every number below 13 is exactly one kind, whose enumerator is that number, and no other number is a kind |
| Values.Storable | list.h:12-27 | a kind can be stored exactly when its enumerator is below the two reserved ones |
| Values.ListInit | list.c:240-283 | a new list has no items and eight slots |
| Values.MapInit | map.c:403-462 | a new map has eight empty buckets, no nodes, and no `first` or `last` |
| Items.CalculateNewSize | list.c:19-21 | the new size is one and a half times the old size, truncated, where sizes 0 and 1 count as one more |
| Items.ListResize | list.c:330-378 | a size below eight becomes eight; items beyond the new size are dropped and the rest are kept in order |
| Items.CheckAvailability | list.c:23-40 | the list grows only when the next length would reach the size; afterwards two more items fit |
| Items.ListCopy | list.c:285-328 | the copy is a valid list with the same items |
| Items.MapCopy | map.c:464-512 | copying succeeds exactly for an empty map, because `map_set` refuses the stored keys that every non-empty map hands it |
| Items.Store | list.c:42-155 | `item_init`/`item_init_pointer` (also map.c:71-184), one postcondition per case: an adopted payload is kept as is; list and map payloads are copied; a NULL item carries no data; a string is cut at its first NUL and at `size`; other kinds copy `size` bytes |
| Items.StoreStoredItem | list.c:737-744 | handing back an item a list already stores yields the same item, so `list_copy` reproduces the items |
| Items.StoreExactString | list.c:117-133 | a NUL-terminated string of exactly `size` bytes is stored as those bytes |
| Lists.ListGet | list.c:196-238 | the item at `pos`, or nothing exactly when `pos` is out of range, whatever kind the caller asks for |
| Lists.ListGetType | list.c:443-451 | the item's kind, or the reserved error kind exactly when `pos` is out of range |
| Lists.ListGetItemSize | list.c:410-418 | the item's `size`, or 0 out of range |
| Lists.ListAppend | list.c:702-768 | success exactly when the item can be copied; the copy goes at the end and the other items are unchanged; the size grows by the growth rule exactly when the next length reaches it |
| Lists.ListInsert | list.c:626-700 | a position past the end appends; otherwise the copy goes in front of the item at `pos` and the other items keep their order |
| Lists.ListReplace | list.c:556-624 | only slot `pos` changes, and only when it exists and the copy succeeds; the length and size are unchanged |
| Lists.Shrink | list.c:831-855 | a list above eight slots that is at most a quarter full shrinks halfway towards its length (never below eight); otherwise it is unchanged |
| Lists.ListRemove | list.c:802-857 | out of range changes nothing; otherwise the item at `pos` goes, the others keep their order, and the shrink rule applies to the new length |
| Lists.ListPop | list.c:770-800 | hands out the item at `pos` and removes it; out of range hands out nothing and changes nothing |
| Lists.EmptyFrom | list.c:870-872 | the loop of `list_empty` from `index` on keeps the list valid, keeps the items before `index`, and of the items from `index` on keeps exactly every second one, starting with the second |
| Lists.ListEmpty | list.c:859-874 | `list_empty` as written keeps the list valid and leaves half of its items, rounded down |
| Lists.EmptyLeavesHalf | list.c:859-874 | `list_empty` as written leaves the floor(n/2) odd-indexed items, in order |
| Lists.EmptyTwoItems | list.c:870-872 | emptying `[a, b]` leaves `[b]` |
| Lists.ListClear | list.c:859-874 | the intended `list_empty` leaves a valid list with no items |
| Lists.ItemBytes | list.c:435 | the bytes `memcmp` reads at an item: its first `size` stored bytes when it holds that many, nothing for size 0, and otherwise the caller-given memory contents |
| Lists.ListContainsAsWritten | list.c:420-441 | as written, `list_contains` reports true exactly when some item of the query's size has DIFFERENT bytes, for every list and every content of the memory the model does not hold |
| Lists.ListContains | list.c:420-441 | the intended `list_contains` reports true exactly when some item has the query's size and bytes, for every list |
| Lists.ContainsInverted | list.c:434-436 | for a list holding only the int 1, the code as written claims 2 is present and 1 is absent, and the intended check says the opposite |
| Lists.InsertShift | list.c:692-698 | the shift moves the items from `pos` up one slot and puts the new item at `pos`; nothing beyond slot `length` changes |
| Lists.RemoveShiftAsWritten | list.c:827-829 | the shift as written closes the gap at `pos`, but only when slot `length` exists, since it reads that slot |
| Lists.RemoveShift | list.c:827-829 | the corrected shift closes the gap at `pos` even when every slot is in use |
| Lists.ResizeFillsEverySlot | list.c:353-359 | resizing to the length or less leaves every slot in use |
| Lists.EighthAppendGrows | list.c:23-40 | from a new list, seven appends fit in eight slots and the eighth grows the list to twelve |
| Bits.AndLowMask | map.c:41 | masking with 2^k - 1 is reducing modulo 2^k |
| Bits.PowerOfTwoC | map.c:29-31 | `number && !(number & (number - 1))` holds exactly for powers of two |
| Probing.GenerateIndex | map.c:37-42 | `generate_index` with the `uint32_t` seed truncation, 64-bit wrap-around and the mask: the result is a valid bucket index |
| Probing.GenerateIndexIsNext | map.c:37-42 | on a power-of-two table, the wrapped and masked step equals the plain step `(a * x + 1) mod size` of the seed's low 32 bits, so of the seed itself below 2^32 |
| Probing.OrbitClosedForm | map.c:14-15 | n probe steps from `x` land on `(a^n * x + (1 + a + ... + a^(n-1))) mod m` |
| Probing.OrbitDistinct | map.c:14-15 | with `a = 1 (mod 4)`, the first 2^k probes from any bucket are pairwise different |
| Probing.OrbitReturns | map.c:14-15 | after 2^k steps the probe sequence is back where it started |
| Probing.FullPeriod | map.c:334-343 | Hull–Dobell for the map's multiplier: the `size` probes of a lookup are distinct, and the next probe returns to the start |
| Probing.ProbeReaches | map.c:334-343 | every bucket is reached within `size` probes from any start |
| Maps.CountSomeUpdate | map.c:1085-1088 | writing one bucket changes the occupied count by that bucket's change only |
| Maps.EmptyBucketExists | map.c:1025-1028 | a table with fewer nodes than buckets has an empty bucket |
| Maps.MapInitValid | map.c:403-462 | a new map satisfies the table invariant |
| Maps.FindFrom | map.c:334-343 | the lookup loop examines every bucket of the path, empty ones included, and stops at the first bucket whose node has the key's hash and bytes |
| Maps.FindBucket | map.c:306-359 | `get_node_index` reports only buckets whose node carries the key; a NULL key finds nothing |
| Maps.FindBucketComplete | map.c:334-343 | if any bucket holds a node with the key, the lookup finds one |
| Maps.FindBucketMissIff | map.c:306-359 | a lookup misses exactly when no bucket matches |
| Maps.SlotInjective | map.c:334-343 | distinct step counts below the size reach distinct buckets |
| Maps.OccupyReachable | map.c:1085-1086 | filling the first empty bucket of a path keeps every node reachable from its hash's first bucket |
| Maps.EmptyScan | map.c:579-589 | the rehash probe stops at the first empty bucket on the path |
| Maps.Rehash | map.c:514-600 | growing the table keeps the nodes, the order, the anchors and the length, and gives the requested bucket count |
| Maps.PlaceKeeps | map.c:579-591 | one step of the rehash loop keeps the nodes seen so far placed once each and reachable |
| Maps.RehashFromKeeps | map.c:560-592 | the whole rehash loop places every old node exactly once, reachably |
| Maps.RehashValid | map.c:514-600 | a grown table satisfies the invariant and every node in it is reachable |
| Maps.MapCheckAvailability | map.c:44-69 | at load 0.8 or more the table doubles, and doubling fails exactly when it would overflow `size_t`; below that load nothing changes |
| Maps.CheckAvailabilityValid | map.c:44-69 | after a successful check the load is below 0.8 and the map is still valid with the same nodes and order |
| Maps.MapResize | map.c:514-600 | sizes below eight become eight; other sizes must be powers of two; a success keeps the nodes, order and length |
| Maps.MapResizeValid | map.c:514-600 | a successful grow keeps the map valid and every node reachable |
| Maps.SetScan | map.c:1025-1070 | the insert loop stops at an empty bucket or at the first node with the key; every bucket before that is occupied by a non-matching node |
| Maps.KeyItem | map.c:225-286 | `node_init` copies the key as a byte item of the key's kind and size; the `size` bytes a lookup compares there are the key's own exactly when it has no NUL or only a final one |
| Maps.KeyView | map.c:335 | the bytes `memcmp` reads at a stored key (here and at map.c:1030), given the copy `item_init` made at map.c:112-127, are `size` long: the copy's own when it holds `size` bytes, the copy plus the NUL `string_copy` wrote when it is one short, and undetermined otherwise |
| Maps.LiteralKeyMatches | map.c:112-127 | a string key whose size counts its final NUL (`"ab"` with size 3) is stored cut to `ab`, yet the compared bytes are `ab` and the NUL, so the key matches itself |
| Maps.InnerNulKeyUnmatched | map.c:112-127 | a string key with a NUL inside (`a`, NUL, `b`) is stored cut to `a`; the third compared byte is memory `string_copy` never wrote, so no query is known to match it |
| Maps.Linked | map.c:1086-1098 | linking a node puts its fresh identity into the bucket and at the end of the order, and adds one to the length |
| Maps.AddNode | map.c:1072-1100 | a new node goes into the empty bucket and at the end of the insertion order, and becomes `last`; a failed value copy changes nothing |
| Maps.SetInto | map.c:1021-1100 | the insert loop succeeds exactly when the value can be copied; the bucket count and seed are unchanged, and the order is unchanged or gains the new node; a loop that finds the key changes no bucket, no link and no length |
| Maps.MapSet | map.c:978-1101 | a key that supplies `data` is refused; otherwise the bucket count doubles exactly when the load had reached 0.8 and doubling fits in `size_t`, and stays the same otherwise; a failure leaves the nodes and order as they were |
| Maps.ScanStops | map.c:1025-1070 | in a table with an empty bucket, the insert loop never runs a full cycle |
| Maps.LinkedValid | map.c:1085-1098 | linking a new node into an empty bucket keeps the map valid |
| Maps.ReplaceValueValid | map.c:1061-1063 | replacing a node's value keeps the map valid |
| Maps.SetIntoValid | map.c:1021-1100 | the insert loop keeps a map with room valid, and keeps every node reachable |
| Maps.MapSetValid | map.c:978-1101 | `map_set` keeps the map valid, and keeps every node reachable |
| Maps.MapGet | map.c:361-401 | `get_node` returns a value only when the lookup finds a bucket, and then the value of the node in that bucket, which carries the key; the requested kind changes nothing |
| Maps.MapContains | map.c:861-863 | `map_contains` holds exactly when the lookup finds a bucket |
| Maps.MapGetType | map.c:865-873 | the stored value's kind, or the reserved error kind on a miss |
| Maps.ContainsIffHasKey | map.c:861-863 | in a valid map, a key is found exactly when some node carries it |
| Maps.SetIntoLands | map.c:1025-1100 | after a successful insert loop, the lookup of the same key finds the bucket holding the new value |
| Maps.SetLands | map.c:978-1101 | after a successful `map_set`, the lookup of the same key finds the bucket holding the new value |
| Maps.SetThenGet | map.c:978-1101 | setting a key and then getting it returns the stored copy of the value |
| Maps.ScanHits | map.c:1025-1030 | when every node is reachable, the insert loop reaches a node with the key before any empty bucket |
| Maps.SetExistingInPlace | map.c:1030-1065 | setting a key the map holds (all nodes reachable) replaces the value in place: order and length unchanged |
| Maps.SetNewAppends | map.c:1072-1100 | setting a key the map lacks adds one node with a fresh identity at the end of the order |
| Maps.SetHeapShape | map.c:978-1101 | `map_set` keeps every node's key and hash, and any node it adds carries the new key |
| Maps.SetKeepsOtherKeys | map.c:978-1101 | setting one key of any byte kind neither adds nor drops any other key |
| Maps.EighthKeyGrows | map.c:44-69 | with eight buckets, the set that finds seven keys stored doubles the table, and one that finds fewer does not |
| Maps.Unlink | map.c:1172-1178 | unlinking a node shortens the insertion order by one |
| Maps.UnlinkFacts | map.c:1172-1178 | the order without the node has no duplicates and holds every other node |
| Maps.UnlinkAnchors | map.c:1165-1170 | after unlinking, `first` is the new first node, and `last` is the new last node when it is moved |
| Maps.DetachValid | map.c:1163-1184 | freeing a node's bucket and unlinking it keeps the map valid when the anchors fit the new order |
| Maps.LastAsWritten | map.c:1165-1170 | the `last` the `else if` leaves equals the corrected one, except when the node was both `first` and `last`: then it still names the node |
| Maps.MapRemoveAsWritten | map.c:1135-1185 | `map_remove` as written: a miss changes nothing; a hit frees the node's bucket, unlinks it and decrements the length; when the node was also `first`, `last` is left alone |
| Maps.MapRemove | map.c:1135-1185 | the corrected removal: a miss changes nothing; a hit frees the node's bucket, unlinks it and decrements the length |
| Maps.RemoveValid | map.c:1135-1185 | the corrected removal keeps the map valid |
| Maps.RemoveAsWrittenValid | map.c:1135-1185 | the removal as written keeps the table invariant, which allows a stale `last` once the map is empty |
| Maps.MapPop | map.c:1103-1133 | hands out a value exactly when the map contains the key, namely the value of the node the lookup finds, and then removes the key with `map_remove` as written; a miss changes nothing |
| Maps.PopLeavesLast | map.c:1103-1133 | popping the only key of a map hands out its value and leaves an empty map whose `last` names the freed node |
| Maps.RemoveThenMiss | map.c:1135-1185 | after removing a key held by one node, the map no longer contains it |
| Maps.MapInitUnique | map.c:403-462 | a new map has every node reachable and no key held by two nodes |
| Maps.SetIntoKeepsUnique | map.c:1025-1100 | when every node is reachable, the insert loop adds a node only for a key no node holds, so no key is held twice afterwards |
| Maps.SetKeepsUnique | map.c:978-1101 | `map_set` of a key its copy reproduces keeps the map valid, every node reachable and no key held twice |
| Maps.ResizeKeepsUnique | map.c:514-600 | growing the table keeps no key held twice |
| Maps.RemoveOnUnique | map.c:1135-1185 | in a valid map where no key is held twice, removing a key makes it absent |
| Maps.SetThenRemoveMisses | map.c:978-1185 | from a map built by `map_init` and such sets, setting a key and then removing it leaves the key absent |
| Maps.RemoveKeepsOtherKeys | map.c:1135-1185 | removing one key leaves every other key present or absent as before |
| Maps.SetIntoEmptyStart | map.c:1021-1028 | setting a key whose first bucket is empty adds a new node there |
| Maps.DuplicateAfterHole | map.c:1180-1184 | after removing the node in a stored key's first bucket, setting that key again adds a second node for it, because removal leaves no tombstone |
| Maps.IterNext | map.c:792-817 | `map_iter_next` moves to `first` from a new iterator and to the successor otherwise; it reports whether it stands on a node |
| Maps.IterPrev | map.c:819-844 | `map_iter_prev` moves to `last` from a new iterator and to the predecessor otherwise |
| Maps.IterIsLast | map.c:663-696 | `map_iter_is_last` holds exactly when the iterator stands on `last` |
| Maps.IterGet | map.c:698-790 | the key and value of the node the iterator stands on, or nothing before the first step |
| Maps.NextStep | map.c:792-817 | a forward step from the k-th node reaches the (k+1)-th node, or ends after the last |
| Maps.PrevStep | map.c:819-844 | a backward step from the k-th node reaches the (k-1)-th node, or ends before the first |
| Maps.EntriesForward | map.c:632-817 | a walk with `map_iter_next` collects the entries in insertion order |
| Maps.EntriesBackward | map.c:632-844 | a walk with `map_iter_prev` collects the entries in reverse insertion order when an empty map has no `last` |
| Maps.LastClearedKept | map.c:978-1185 | with the corrected removal, set, remove and resize all keep "an empty map has no `last`" |
| Maps.DanglingLast | map.c:1165-1170 | with the removal as written, removing the only key leaves `last` on the freed node, and a backward step from a new iterator reports it |
| Maps.NoDanglingLast | map.c:1165-1170 | with the corrected removal, the same backward step reports no node |
| CStrings.StrLen | str.c:103 | `strlen` is the position of the first NUL, or the buffer length when there is none |
| CStrings.StrLenUnique | str.c:103 | any length with no NUL before it and a NUL (or the end) at it is the `strlen` |
| CStrings.StringCopy | str.c:81-114 | NULL arguments fail; otherwise the first min(strlen, outputsize) bytes are copied, then a NUL, and the rest of the output is untouched |
| CStrings.StringCopyReadsBack | str.c:81-114 | reading the output back gives the input's string cut to `outputsize` bytes |
| CStrings.StringDuplicate | str.c:116-147 | the duplicate is strlen + 1 bytes: the input's string and a NUL |
| CStrings.DuplicateSameString | str.c:116-147 | the duplicate holds the same string, and duplicating it again gives the same buffer |
| CStrings.LowerInPlace | str.c:325-327 | the loop converts each byte before the first NUL to lower case and leaves the rest |
| CStrings.UpperInPlace | str.c:346-348 | the loop converts each byte before the first NUL to upper case and leaves the rest |
| CStrings.StringLower | str.c:311-330 | NULL stays NULL; otherwise the string is converted to lower case in place |
| CStrings.StringUpper | str.c:332-351 | NULL stays NULL; otherwise the string is converted to upper case in place |
| CStrings.MapStringKeepsLength | str.c:311-351 | case conversion keeps the string's length |
| CStrings.LowerIdempotent | str.c:311-330 | converting to lower case twice is the same as once |
| CStrings.UpperIdempotent | str.c:332-351 | converting to upper case twice is the same as once |
| CStrings.LowerAfterUpper | str.c:311-351 | lower-casing after upper-casing is the same as lower-casing |
| Splitting.Delimiter | str.c:160-162 | a NULL delimiter is the one-space string; otherwise the delimiter is the NUL-free string its buffer holds |
| Splitting.MatchesSlice | str.c:191 | the byte-wise comparison `strstr` makes holds exactly when the slice equals the delimiter |
| Splitting.Search | str.c:191 | an occurrence found from `j` on lies at or after `j` and is a real occurrence |
| Splitting.SearchFirst | str.c:191 | no occurrence comes before the one found, and there is none when nothing is found |
| Splitting.StrStr | str.c:191 | `strstr` finds an occurrence inside the string the buffer holds |
| Splitting.StrStrFirst | str.c:191 | `strstr` finds the first occurrence in the string, and finds one whenever there is one |
| Splitting.SearchShiftSome | str.c:191 | searching the rest of the input from `ptrindex` finds the occurrence the whole input has there |
| Splitting.PiecesCut | str.c:191-205 | the pieces are the bytes up to the first delimiter, then the pieces after it |
| Splitting.JoinPieces | str.c:149-309 | gluing the pieces back together with the delimiter restores the string, whatever the limit |
| Splitting.PiecesAvoidDelimiter | str.c:191-210 | no piece except the last contains the delimiter |
| Splitting.PiecesCount | str.c:207-209 | a positive limit allows at most that many cuts |
| Splitting.CountOneCutsTwice | str.c:207 | `delimcount++ == count` breaks only after `count` + 1 cuts: "a: b: c" split at ": " with count 1 gives three tokens |
| Splitting.AppendToken | str.c:194-199 | appending a token of a NUL-free buffer stores exactly its bytes as a string item |
| Splitting.FoundStep | str.c:191-210 | a turn that finds the delimiter moves the next piece into the tokens and steps past the delimiter |
| Splitting.NotFoundStep | str.c:191 | a turn that finds no delimiter leaves the rest as the last piece |
| Splitting.CutTurn | str.c:191-205 | one loop turn: either it finds a delimiter, appends the token and moves past it, or it stops with the rest as the last piece |
| Splitting.CutTokens | str.c:187-210 | the loop's tokens followed by the rest are the pieces under the count's cut limit |
| Splitting.SplitLen | str.c:149-228 | NULL input gives NULL; count 0 or an empty delimiter gives one token; for a NUL-free string taken whole, the tokens are its pieces |
| Splitting.Split | str.c:230-246 | `string_split` is `string_split_len` over the whole string; for a NUL-free string the tokens are its pieces |
| Splitting.JoinWordsLength | str.c:268-274 | the joined bytes number the sum of the sizes plus one delimiter between each pair of neighbours |
| Splitting.JoinLength | str.c:268-274 | the sizing loop computes the sum of the sizes plus a delimiter between each pair of neighbours |
| Splitting.JoinBytes | str.c:291-302 | the filling loop writes each item's bytes with the delimiter between neighbours |
| Splitting.StringJoin | str.c:248-309 | NULL gives NULL; otherwise the joined bytes and a NUL, exactly as long as the sizing loop computed plus one |
| Splitting.SplitJoin | str.c:149-309 | joining the tokens of a split of a NUL-free string with the same delimiter gives back the string, for every count |

## Left out

- NULL container and item arguments, allocation failures, `free`, destructors (`generic_free` is only carried as a number) and logging. Allocation cannot fail in the model. A NULL item makes `list_append`, `list_insert` and `list_replace` return false (list.c:567-575, 637-645, 713-721), and a NULL key makes `map_set` return false (map.c:989-997); the model has no NULL item or key argument for these calls.
- `list_get_length`, `list_get_size`, `map_get_length` and `map_get_size` are plain field reads. They are the `Length()` and `Capacity()` members.
- The typed getters (`list_get_bool`, `map_get_int`, ...) reinterpret bytes as C values, including doubles. They are modelled only as `ListGet`/`MapGet`, which return the stored item.
- `list_free`, `map_free` and `map_iter_free` only release memory.
- `spooky_hash32` is a parameter of every map operation.
- The seed `map_init` takes from a stack address is a parameter, and `map_copy` reuses the source's seed.
- Lists.ListContainsAsWritten and Lists.ListContains take the memory the model does not hold as a parameter: for a list or map item the `memcmp` reads the container's fields, for a NULL item of non-zero size it reads through NULL, and for a string item stored shorter than its `size` it reads past the copy. The model does not know those bytes, so the contracts hold for every content of that memory.
- Items.ArgShape requires a caller's item to hold at least `size` bytes, and a list or map pointer to point at a container the library built. The C code reads the caller's memory without checking either.
- Maps.MapSet requires a key of a byte kind. A list, map or NULL key would be hashed by its pointer bytes, which the model does not have.
- Map keys compare by equality of their bytes, after equal hashes. The code compares only the stored key's `size` bytes (map.c:335, map.c:1029), taking the length from the stored key, not from the query. When the hashes of a query and of a stored key of a different length collide, the code therefore differs from the model: a query that extends the stored key matches on the stored key's prefix, and a shorter query is read past its end. Since the hash function is a parameter, Maps.ContainsIffHasKey, Maps.SetThenGet, Maps.SetLands and the other lookup lemmas are stated for the model's comparison, and hold for the code only where no such cross-length collision occurs.
- Maps.SetThenGet, Maps.SetLands, Maps.SetKeepsUnique and Maps.SetThenRemoveMisses need `ExactKey`: a string key with no NUL, or with a NUL only as its last byte. `item_init` cuts a string key at its first NUL (map.c:112-127). For a final NUL the compared bytes are still the key's, since `string_copy` writes that NUL (Maps.LiteralKeyMatches). For a NUL further in, the compared bytes run into memory the copy never wrote, so the code's result depends on it.
- Maps.FindBucket and Maps.SetScan: a stored string key with a NUL before its last byte matches no query in the model (Maps.KeyView is None, Maps.InnerNulKeyUnmatched). The code's `memcmp` reads uninitialised bytes of the `malloc(size + 1)` buffer there, and may match. So for such keys the model promises nothing about the code's lookups, and setting the key again adds a second node in the model.
- Maps.MapResize requires the request not to shrink the table. The branch of `map_resize` that frees nodes whose old index is beyond the new size (map.c:567-577) is not modelled.
- Maps.Slot: a probe step passes the previous index through the `uint32_t` parameter of `generate_index`. That parameter truncates indices of 2^32 and above. The model steps with the full index, which is the same for tables of up to 2^32 buckets.
- Maps.MapCheckAvailability compares `5 * length >= 4 * size` where the code compares the `double` quotient with 0.8. The two agree while both counts fit a `double` exactly.
- `size_t` overflow of list lengths, token offsets and join lengths is not modelled. Integers are unbounded apart from the map's bucket count and the LCG arithmetic.
- Splitting.SplitLen and Splitting.Split state what the tokens are only for a NUL-free string taken whole. In other cases they state only that the result is a valid list.
- Splitting.StringJoin requires every item to hold at least its `size` bytes, since the code copies that many.
- Maps.EntriesForward requires only `Walkable`, which every valid map has (`Maps.ValidWalkable`). Maps.EntriesBackward also requires `LastCleared`: an empty map has no `last`. `map_init` and the corrected operations keep that (Maps.MapInitLastCleared, Maps.LastClearedKept). The removal as written breaks it when it removes the only key (map.c:1165-1170, Maps.DanglingLast), and a backward walk of that map starts at a freed node.
- Maps.RemoveThenMiss requires that no other node holds the removed key. Maps.MapInitUnique, Maps.SetKeepsUnique and Maps.ResizeKeepsUnique show this for every map built from `map_init` by growth and by sets of keys their copies reproduce. It does not hold for every map: removal leaves no tombstone, so a later set can add a second node for a stored key (Maps.DuplicateAfterHole), and removing that key then leaves the other node behind.
- Maps.MapPop does not model how `map_pop` clears the handed-out value in the freed node, because that memory is freed right after.
- Items.ListCopy returns equal items with value semantics. In C the copy shares every payload with the source, because `list_append` adopts a stored item's data pointer (list.c:737-744); freeing one list leaves the other's payloads dangling. The model has no pointers or memory, so it cannot show this sharing.
- The other functions of str.c (`string_create`, `string_from_time`, `string_to_int` and the rest) are not part of this model.

## Findings

| source | as written | input that shows it | evidently intended | confidence | as-written member | corrected member |
|---|---|---|---|---|---|---|
| list.c:435 | `memcmp(data, i->data, i->size)` is tested without `!`, so a hit is an item with the same size and different bytes | a list holding only the int 1: `list_contains` for 1 says false, and for 2 says true | report an item with the same size and the same bytes | not executed | Lists.ListContainsAsWritten (Lists.ContainsInverted) | Lists.ListContains |
| list.c:870-872 | the loop removes the item at `index` and then increments `index`, while the remaining items have moved down one slot | `[a, b]`: removes `a`, then `index` is 1 and the length is 1, so `b` is kept | remove every item | not executed | Lists.ListEmpty (Lists.EmptyLeavesHalf, Lists.EmptyTwoItems) | Lists.ListClear |
| list.c:827-829 | the shift runs `index < length` and reads `items[index + 1]`, which is slot `length` on the last turn | `list_resize` of a 10-item list to 8 leaves 8 items in 8 slots (Lists.ResizeFillsEverySlot); `list_remove(l, 0)` then reads `items[8]`, past the array | stop the shift at `index + 1 < length` | not executed | Lists.RemoveShiftAsWritten (requires slot `length` to exist) | Lists.RemoveShift |
| map.c:1165-1170 | `last` is moved in an `else if` after the `first` test, so removing the only node leaves `last` naming the freed node; `map_pop` removes through `map_remove` (map.c:1132) and inherits this | set one key, remove or pop it, then call `map_iter_prev` on a new iterator: it reports a node although the map is empty | move `last` whenever it is the removed node | not executed | Maps.MapRemoveAsWritten (Maps.DanglingLast), Maps.MapPop (Maps.PopLeavesLast) | Maps.MapRemove (Maps.NoDanglingLast) |

## Where the code and its description differ

The model follows the code in each of these cases.

- **List growth.** The growth factor 1.5 is applied to a `size_t`, so the new size is truncated, not rounded up. Eight slots grow to twelve.
- **Map growth.** The map doubles when the load before an insert is at least 0.8. With eight buckets, that is the insert that finds seven keys stored, so the eighth key grows the table, not the seventh.
- **Copies.** `list_copy` (list.c:285-328) makes a shallow copy, not a deep one. It appends each stored item, and `list_append` adopts the item's data pointer (list.c:737-744), so both lists share their payloads. `item_init` of a list item goes through `list_copy` and shares payloads in the same way.
- **Map copies fail.** `map_copy` (map.c:464-512) passes each stored key to `map_set`, and a stored key always carries `data`, which `map_set` refuses (map.c:999-1008). So copying fails for every non-empty map, and so does `item_init` of a non-empty map item (Items.MapCopy).
- **Typed getters.** A typed getter with a mismatched kind only logs the mismatch. It returns the stored item's payload anyway.
