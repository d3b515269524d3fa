# resetter, modelled in Dafny

resetter is a C program that tears down TCP connections on a network it can
sniff. A capture thread watches TCP segments that carry SYN or ACK. For each
one it injects a forged RST, with source and destination swapped and with
the sequence number set to the segment's acknowledgement number, so the
peer accepts it. A second thread can poison the ARP caches of a network to
put itself in the path of the traffic. It records sender IP → sender MAC
from the ARP replies it sees, first seen wins, and broadcasts who-has
requests. The program rests on a small container library:
- a doubly-linked list, a chained hash table and an array list under
  `utils/`;
- older versions of the list and table at the root of the repository.

This project models that core:

| module | file | what it models |
|---|---|---|
| `Common` | common.dfy | `Option`, bytes, big- and little-endian field reads |
| `Context` | context.dfy | the fields of `resetter_context_t` that the handlers use |
| `LinkedList` | linked_list.dfy | `utils/list.c`: heap nodes, and a ghost spine of the nodes reached from `head` |
| `HashTable` | hash_table.dfy | `utils/hash_table.c`: an array of buckets, and a ghost map of key → value |
| `ArrayList` | array_list.dfy | `utils/array_list.c`: an `array` whose values are shifted in place |
| `LegacyList` | legacy_list.dfy | `list.c`: the tail-less list with `int` positions |
| `LegacyHashTable` | legacy_hash_table.dfy | `hash_table.c`: chains of entries |
| `NetUtils` | net_utils.dfy | MAC formatting; the dotted-quad conversions and prefix matching; the libnet statistics throttle |
| `ArpMitm` | arp_mitm.dfy | frame classification, the learning rule, table keys, `unpoison`, the who-has fields |
| `Resetter` | resetter.dfy | the pcap filter string, the SYN/ACK decision, the RST fields, `_cleanup` |

The containers are classes that update their fields in place.
- The linked lists are made of real `Node` objects.
- Each list carries a ghost `Spine` (the nodes, in order) and `Contents`
  (their values), tied to the links by `Linked()` / `Valid()`.
- The hash table keeps its `index` as an `array` of buckets and a ghost
  `Map`. `Valid()` says three things:
  - every entry sits in the bucket `find_index` picks;
  - keys are unique;
  - the buckets hold exactly `Map`.
- `Counted()` adds `entry_size == |Map|`. It is kept apart because
  `ht_rehash` breaks it.

The packet logic consists of functions from a captured frame (`seq<Byte>`)
to a decision. The frames sent through libnet become records of the header
field values handed to the builders.

## Model

| member | source | states |
|---|---|---|
| LinkedList.List.constructor | utils/list.c:51-57 | list_init: an empty, valid list with `head`, `tail` NULL and `size` 0 |
| LinkedList.List.FindNodeAt | utils/list.c:37-49 | the node at `pos` of the chain, or NULL at or past the end |
| LinkedList.List.InsertAt | utils/list.c:59-87 | as written: -1 and no change when `pos` is at or past the end of the chain (`|Spine|`), which covers the empty list; otherwise 0, `size` + 1, and the new node is linked from neither neighbour, so the chain and its contents are unchanged and `Valid()` is lost |
| LinkedList.List.InsertAtLinked | utils/list.c:59-87 | corrected insert: with `pos` < length the contents become `s[..pos] + [v] + s[pos..]` and the list stays valid; otherwise -1 and nothing changes |
| LinkedList.InsertAtLeavesNodeUnlinked | utils/list.c:77-87 | a concrete list where insert_at leaves `size` 2 over a chain holding the single value 7 |
| LinkedList.List.GetAt | utils/list.c:89-97 | the value at `pos` of the chain, or none when `pos` is at or past the end of the chain (`|Contents|`), whatever `size` says |
| LinkedList.List.DelAt | utils/list.c:99-135 | with `pos` < length, exactly that element is removed: the others keep their order, the node is detached and the list stays valid; otherwise -1 and nothing changes |
| LinkedList.List.Head | utils/list.c:137-143 | the first value, or none on an empty list |
| LinkedList.List.Tail | utils/list.c:188-194 | the last value, or none on an empty list |
| LinkedList.List.PushHead | utils/list.c:145-169 | contents `[v] + s`; the new node becomes the head; `tail` is unchanged unless the list was empty; valid, returns 0 |
| LinkedList.List.PopHead | utils/list.c:171-186 | as written: returns the first value and drops it from the chain with `size` - 1, but `tail` and the new head's `prev` are left stale, so the list is no longer linked |
| LinkedList.PopHeadLeavesStaleTail | utils/list.c:171-186 | a concrete list where pop_head leaves `head` NULL and `size` 0 while `tail` still points at the popped node |
| LinkedList.List.PopHeadRelinked | utils/list.c:171-186 | corrected pop_head: returns the first value, or none when empty; the contents lose their first element and the list stays valid |
| LinkedList.List.PushTail | utils/list.c:196-217 | contents `s + [v]`; the new node becomes the tail; `head` is unchanged unless the list was empty; valid, returns 0 |
| LinkedList.List.PopTail | utils/list.c:219-246 | returns the last value and removes it, or none when empty; once empty, `head` and `tail` are NULL; stays valid |
| LinkedList.List.Iter | utils/list.c:248-268 | one callback per node, head to tail, with indices 0, 1, 2, …; -1 on an empty list |
| LinkedList.List.Destroy | utils/list.c:306-314 | returns 0 and leaves an empty valid list with `head`, `tail` NULL and `size` 0 |
| HashTable.Slot | utils/hash_table.c:27-29 | find_index lies in `[0, index_size - 2]`: the last bucket is never used |
| HashTable.UpsertShape | utils/hash_table.c:191-209 | setting a present key keeps the chain's length and replaces only that entry's value; a new key is appended; keys stay unique |
| HashTable.FlattenUnique | utils/hash_table.c:160-210 | when every entry sits in its own key's bucket and each bucket's keys are unique, the keys of the whole table are unique |
| HashTable.TableFlatten | utils/hash_table.c:309-335 | a valid table's entries, read bucket by bucket, have unique keys and form exactly its map |
| HashTable.TableCard | utils/hash_table.c:386-388 | the number of entries in a valid table equals the size of its map |
| HashTable.VisitsFlatten | utils/hash_table.c:309-335 | the iteration visits every entry exactly once, in bucket order and then chain order, tagged with its bucket |
| HashTable.VisitsSlot | utils/hash_table.c:309-335 | each visited entry is reported with the bucket its key hashes to |
| HashTable.KeysOfTable | utils/hash_table.c:373-384 | the keys collected from a valid table are distinct and are exactly the map's keys |
| HashTable.Table.constructor | utils/hash_table.c:58-82 | ht_init: `index_size` and the hash recorded, no entries; the index is allocated with every bucket absent, or NULL on allocation failure |
| HashTable.Table.InitEntry | utils/hash_table.c:119-150 | ht_init_entry: an entry holding the key and value, marked `must_destroy` so that the table frees them |
| HashTable.Table.SetEntry | utils/hash_table.c:174-210 | -1 and no change on a NULL index; otherwise 0, the map becomes `m[key := value]`, and `entry_size` grows by one exactly when the key was new |
| HashTable.Table.Set | utils/hash_table.c:160-172 | -1 and no change on a NULL index; otherwise 0, the map becomes `m[key := value]`, `entry_size` grows by one exactly when the key was new, and only the key's bucket changes, by an upsert of an entry that does not own its key and value |
| HashTable.Table.SetInitEntry | arp_mitm.c:297-309 | ht_init_entry then ht_set_entry, as the ARP handler stores a pair: -1 on a NULL index; otherwise 0 and the map becomes `m[key := value]`; a new key's bucket ends with the entry, which owns its key and value; for a present key every stored entry keeps its `must_destroy` and the chain keeps its length |
| HashTable.Table.Get | utils/hash_table.c:212-238 | the value mapped to `key`, or none when the key is absent or the bucket is absent or empty |
| HashTable.Table.Del | utils/hash_table.c:240-273 | 0 when the key was present, -1 otherwise; afterwards the map is `m - {key}` and `entry_size` drops by the number removed |
| HashTable.Table.Iter | utils/hash_table.c:309-335 | -1 with no visits on a NULL index; otherwise 0 and the visits of all buckets in order |
| HashTable.Table.Keys | utils/hash_table.c:373-384 | the count and the keys in iteration order: distinct, and exactly the map's keys |
| HashTable.Table.Values | utils/hash_table.c:407-418 | the count and the values in iteration order, each the map's value for its entry's key |
| HashTable.Table.Size | utils/hash_table.c:386-388 | `entry_size`, which equals the number of entries while the table is counted |
| HashTable.Table.Destroy | utils/hash_table.c:295-307 | `index` becomes NULL and the map empty; 0 and `entry_size` 0 the first time, -1 with no change on a NULL index |
| HashTable.DestroyTwice | utils/hash_table.c:295-307 | destroying twice returns 0 and then -1 |
| HashTable.Table.Rehash | utils/hash_table.c:84-117 | as written: on success every key keeps its value under the new size, but `entry_size` grows by the number of entries (it doubles on a counted table); on allocation failure -1, the index NULL and the entries lost |
| HashTable.Table.RehashRecounted | utils/hash_table.c:84-117 | corrected rehash with `entry_size` reset before reinsertion: same map, and the table stays counted |
| ArrayList.Inserted | utils/array_list.c:87-105 | insertion at `pos`: one longer, `v` at `pos`, the elements before kept and the ones after moved up by one |
| ArrayList.Deleted | utils/array_list.c:115-125 | deletion at `pos`: one shorter, the elements before kept and the ones after moved down by one |
| ArrayList.DeleteInserted | utils/array_list.c:87-125 | deleting at `pos` what was inserted there gives back the list |
| ArrayList.InsertDeleted | utils/array_list.c:87-125 | reinserting the deleted element at its position gives back the list |
| ArrayList.GrownCapacity | utils/array_list.c:77-85 | shift_right's capacity: never smaller, always above `pos`, and unchanged when `pos + 1 < capacity` |
| ArrayList.InsertFitsExactly | utils/array_list.c:77-105 | insert_at stays within the array iff the list is not full, or it appends to a non-empty full list |
| ArrayList.ShiftRightOverflows | utils/array_list.c:77-85 | some list of size at most its capacity, with a valid position, makes the insertion write past the array |
| ArrayList.AllocatedSlots | utils/array_list.c:12-32 | the whole `void*` slots in the `capacity * value_size` bytes alloc_array requests: `capacity` exactly when `value_size` is the pointer size |
| ArrayList.IntListUnderAllocated | tests/array_list_test.c:36-39 | the test's `sizeof(int)` list of capacity 3 gets one whole slot on LP64, and its second slot ends past the 12 bytes |
| ArrayList.ArrayList.constructor | utils/array_list.c:34-45 | init: size 0 and the capacity and value size as given; the array is allocated with `capacity` pointer slots, or NULL on allocation failure. This is the corrected allocation; the bytes the code requests are AllocatedSlots |
| ArrayList.ArrayList.IndexOf | utils/array_list.c:47-55 | the smallest index holding `value`, or `(size_t)-1` iff the value is absent |
| ArrayList.ArrayList.GetAt | utils/array_list.c:107-113 | the element at `pos`, or none when `pos >= size` |
| ArrayList.ArrayList.ShiftLeft | utils/array_list.c:63-69 | the contents become `Deleted(s, pos)`, in the same array |
| ArrayList.ArrayList.AllocArray | utils/array_list.c:12-32 | on success a fresh array of `capacity` pointer slots (the corrected size) holding the old values; on failure -1 and the old array kept |
| ArrayList.ArrayList.Resize | utils/array_list.c:160-182 | to the current capacity: 0, no change; below `size`: -1, no change; on allocation failure the old capacity is restored; the contents are always kept |
| ArrayList.ArrayList.ShiftRight | utils/array_list.c:77-85 | the capacity becomes `GrownCapacity`; the values before `pos` stay and those from `pos` move up one slot |
| ArrayList.ArrayList.InsertAt | utils/array_list.c:87-105 | as written, where the insertion fits: `pos > size` returns -1 with no change; otherwise 0 and contents `Inserted(s, pos, v)` |
| ArrayList.ArrayList.InsertAtGrowing | utils/array_list.c:77-105 | corrected insert_at that grows whenever the list is full: `Inserted(s, pos, v)` for every `pos <= size` |
| ArrayList.ArrayList.DelAt | utils/array_list.c:115-125 | with `pos < size` returns `s[pos]` and leaves `Deleted(s, pos)`; otherwise none and no change |
| ArrayList.ArrayList.DelValue | utils/array_list.c:127-134 | removes the first occurrence of the value and returns it, or none and no change when it is absent |
| ArrayList.ArrayList.PushHead | utils/array_list.c:136-138 | contents `[v] + s` |
| ArrayList.ArrayList.PopHead | utils/array_list.c:140-146 | none on an empty list; otherwise the first value, and the contents lose it |
| ArrayList.ArrayList.PushTail | utils/array_list.c:148-150 | contents `s + [v]` |
| ArrayList.ArrayList.PopTail | utils/array_list.c:152-158 | none on an empty list; otherwise the last value, and the contents lose it |
| ArrayList.ArrayList.Destroy | utils/array_list.c:184-195 | the array NULL and `size`, `value_size`, `capacity` 0 |
| ArrayList.Scenario | tests/array_list_test.c:36-67 | the test's pushes, removals and re-insertions on a list of 3 pointer slots (the corrected allocation) end with the values 7, 5 |
| ArrayList.ScenarioTail | tests/array_list_test.c:38-46 | three tail pushes on a list of 3 pointer slots (the corrected allocation) give 5, 7, 9 |
| ArrayList.ScenarioRemove | tests/array_list_test.c:47-55 | from 5, 7, 9: deleting position 1 returns 7; after pushing 11, deleting position 1 returns 9; deleting position 9 returns nothing; two head pops return 5 and 11 and empty the list |
| ArrayList.ScenarioPushHead | tests/array_list_test.c:57-59 | pushing 5, 7 and 9 at the head of an empty list of 3 pointer slots (the corrected allocation) gives 9, 7, 5 |
| ArrayList.ScenarioHead | tests/array_list_test.c:57-64 | after those head pushes, slot 2 holds 5 and slot 0 holds 9; deleting 9 by value returns it and leaves 7, 5 |
| LegacyList.Rewind | list.c:7-15 | following `prev` from any node of a chain reaches its first node |
| LegacyList.List.constructor | list.c:32-36 | list_init: empty, `head` NULL, `size` 0 |
| LegacyList.List.At | list.c:17-30 | the node at `pos`, or NULL for a negative or too large `pos` |
| LegacyList.List.InsertAt | list.c:38-73 | on an empty list `v` becomes the only element whatever `pos` is; with `0 <= pos < size` the contents become `s[..pos] + [v] + s[pos..]`; otherwise -1 and nothing changes |
| LegacyList.List.GetAt | list.c:75-83 | the value at `pos`, or none |
| LegacyList.List.Shift | list.c:85-87 | prepends: contents `[v] + s` |
| LegacyList.List.Unshift | list.c:89-101 | removes and returns the first value, or none on an empty list |
| LegacyList.List.Last | list.c:103-132 | list_push's walk along `next`: the last node of the chain, or NULL when empty |
| LegacyList.List.Push | list.c:103-132 | appends: contents `s + [v]`, `head` kept unless the list was empty |
| LegacyList.List.TailNode | list.c:134-144 | the node at `size - 1`, or NULL when empty |
| LegacyList.List.Tail | list.c:146-154 | the value at `size - 1`, or none when empty |
| LegacyList.List.Pop | list.c:156-168 | returns the last value and removes it, or none on an empty list |
| LegacyList.List.DelAt | list.c:170-197 | -1 and no change on an empty list or an out-of-range `pos`; otherwise 0 and that element removed |
| LegacyList.List.Iter | list.c:199-209 | one callback per node, head to tail, with indices 0, 1, 2, … |
| LegacyList.List.Destroy | list.c:225-232 | returns 0 and leaves the list empty with `head` NULL and `size` 0 |
| LegacyList.Scenario | tests/list_test.c:32-72 | push "foo", "bar", shift "spangle", delete at 0, pop: one element "foo" is left |
| LegacyList.ScenarioPush | tests/list_test.c:38-49 | two pushes give "foo", "bar" in that order |
| LegacyList.ScenarioShiftAndDelete | tests/list_test.c:51-64 | shifting in "spangle" and deleting position 0 restores "foo", "bar" |
| LegacyHashTable.KeyHashSumAppend | hash_table.c:15-25 | the default hash sums over the key's bytes, so it is additive over concatenation |
| LegacyHashTable.KeyHashSumSwap | hash_table.c:15-25 | the default hash ignores byte order: `ab` and `ba` collide |
| LegacyHashTable.KeyHashSumBound | hash_table.c:15-25 | each byte contributes at most `size - 2` |
| LegacyHashTable.DefaultKeyHash | hash_table.c:15-25 | the loop's wrap-around sum equals the byte-sum function reduced modulo 2^32 |
| LegacyHashTable.FindHasKey | hash_table.c:88-108 | a chain walk finds a value iff some entry has the key, and it returns the first such entry's value |
| LegacyHashTable.FindUpsert | hash_table.c:46-86 | after a set, looking the key up gives the new value; every other key keeps its old result |
| LegacyHashTable.UpsertShape | hash_table.c:46-86 | a set on an existing key replaces in place and adds no node; on a new key it appends one entry; keys stay unique |
| LegacyHashTable.FindRemove | hash_table.c:110-149 | removing a key from a chain of unique keys makes it absent, keeps every other key's value, and shortens the chain by one iff it was present |
| LegacyHashTable.DelAsWrittenMisreports | hash_table.c:130-148 | on a chain of two or more entries holding the key, ht_del returns -1; when the key heads the chain, it is still found afterwards |
| LegacyHashTable.DelAsWrittenCounterexample | hash_table.c:130-148 | a concrete chain from which deleting key 1 returns -1 and leaves the chain as it was |
| LegacyHashTable.Walk | hash_table.c:66-82 | the position of the first entry with the key, or the chain's end |
| LegacyHashTable.Table.Slot | hash_table.c:7-9 | find_index lies in `[0, size - 2]` |
| LegacyHashTable.Table.constructor | hash_table.c:27-44 | ht_init: records `size` and the hash; every bucket is empty; the index is NULL on allocation failure |
| LegacyHashTable.Table.FindIndex | hash_table.c:7-9 | the slot the key hashes to |
| LegacyHashTable.Table.Set | hash_table.c:46-86 | returns 0; the key's chain becomes the set's upsert and every other slot is unchanged |
| LegacyHashTable.Table.Get | hash_table.c:88-108 | the value the key's chain holds for it, or none |
| LegacyHashTable.Table.Del | hash_table.c:110-149 | as written: the return code and the chain after ht_del, including the multi-entry case that returns -1 |
| LegacyHashTable.Table.DelUnlinking | hash_table.c:110-149 | corrected ht_del: 0 iff the key was present, and its chain loses exactly that entry |
| LegacyHashTable.Table.Destroy | hash_table.c:151-168 | returns 0, and the index is released (`null` in the model; the code frees it and leaves the pointer dangling) |
| LegacyHashTable.TestKeySlots | tests/hash_table_test.c:32-72 | the slots of "foo", "bar", "spangle" and "doesnt_exist" in the 50-slot test table are 30, 15, 11 and 31: all different |
| LegacyHashTable.ScenarioGetAndSet | tests/hash_table_test.c:32-55 | each of the three sets returns 0; afterwards "foo", "bar" and "spangle" give "one", "two" and "fez", and "doesnt_exist" gives nothing |
| LegacyHashTable.ScenarioDel | tests/hash_table_test.c:57-72 | deleting "bar", alone in its slot, returns 0; "foo" still gives "one" and "bar" gives nothing |
| LegacyHashTable.NewTestTable | tests/hash_table_test.c:15-21 | the test table: 50 slots, all empty, the default hash |
| NetUtils.EtherNtoa | utils/net_utils.c:7-21 | the rendering of a MAC is 17 characters long |
| NetUtils.EtherNtoaGroups | utils/net_utils.c:7-21 | six two-digit lowercase hex groups, in byte order, separated by ':' |
| NetUtils.EtherNtoaRoundTrip | utils/net_utils.h:32-38 | parsing the rendering gives back the six bytes |
| NetUtils.EtherNtoaInjective | utils/net_utils.h:32-38 | different MACs render differently |
| NetUtils.EtherNtoaExample | tests/net_utils_test.c:73-78 | ab:57:d8:36:da:88 for the test's bytes |
| NetUtils.Decimal | utils/net_utils.h:14-20 | `%u` rendering: digits only, at most three for a byte, and no leading zero |
| NetUtils.DecimalRoundTrip | utils/net_utils.h:14-20 | reading the rendered digits gives back the number |
| NetUtils.FieldsJoin | utils/net_utils.h:6-12 | splitting at dots undoes joining with a dot |
| NetUtils.Ip2Long | utils/net_utils.h:6-12 | the result is a 32-bit value |
| NetUtils.Long2Ip | utils/net_utils.h:14-20 | the dotted quad fits the 16-byte buffer (at most 15 characters) |
| NetUtils.Ip2LongOfLong2Ip | utils/net_utils.h:6-20 | ip2long inverts long2ip on every 32-bit value |
| NetUtils.Long2IpInjective | utils/net_utils.h:14-20 | different values print differently |
| NetUtils.Long2IpOfBytes | utils/net_utils.h:14-20 | the first field is the most significant byte |
| NetUtils.ZeroAddress | tests/net_utils_test.c:19-20 | 0 ↔ "0.0.0.0" |
| NetUtils.SmallAddress | tests/net_utils_test.c:22-23 | 16909060 ↔ "1.2.3.4" |
| NetUtils.BroadcastAddress | tests/net_utils_test.c:25-26 | 4294967295 ↔ "255.255.255.255" |
| NetUtils.EmptyAddress | tests/net_utils_test.c:28-29 | "" gives -1 as a `uint32_t` |
| NetUtils.InvalidCollidesWithBroadcast | utils/net_utils.h:10 | the failure value is the same as 255.255.255.255 |
| NetUtils.IpMatches | utils/net_utils.h:22-30 | the result is 1 or 0 |
| NetUtils.PrefixOfPrefix | utils/net_utils.h:22-30 | a shorter prefix is a prefix of a longer one |
| NetUtils.IpMatchesAllBits | utils/net_utils.h:22-30 | with 32 bits, a match iff the addresses are equal |
| NetUtils.IpMatchesNoBits | tests/net_utils_test.c:69-70 | with 0 bits, everything matches |
| NetUtils.IpMatchesShorter | utils/net_utils.h:22-30 | a match on `n` bits implies a match on every `m <= n` |
| NetUtils.IpMatchesExamples | tests/net_utils_test.c:51-55 | 1.2.3.4 vs 1.2.3.100: no match on 32 bits, a match on 24 |
| NetUtils.Throttle | utils/net_utils.c:23-45 | the new `libnet_last_stats_at` is either the old value or now |
| NetUtils.ThrottleForward | utils/net_utils.c:23-45 | after the first call, a report iff more than 10 seconds have passed, and only then `last := now` |
| NetUtils.ThrottleBackward | utils/net_utils.c:34-44 | a clock behind `last` wraps the unsigned difference, so it reports and resets `last` |
| NetUtils.ReportsSpaced | utils/net_utils.c:23-45 | under a non-decreasing clock, reports are more than 10 seconds apart |
| NetUtils.MaybePrintLibnetStats | utils/net_utils.c:23-45 | the report decision and the new `libnet_last_stats_at` are those of the throttle rule |
| ArpMitm.SenderMac | arp_mitm.c:289-309 | the sender hardware address is six bytes |
| ArpMitm.Classify | arp_mitm.c:255-289 | a reply carries a six-byte sender MAC |
| ArpMitm.LearnIgnoresForeignFrames | arp_mitm.c:255-265 | a frame that is not ARP, or not Ethernet/IPv4 ARP, leaves the table unchanged |
| ArpMitm.LearnNeedsPoisoning | arp_mitm.c:274-276 | while poisoning is off, no frame changes the table |
| ArpMitm.LearnIgnoresRequests | arp_mitm.c:280-287 | a request, or any opcode but reply, never changes the table |
| ArpMitm.LearnReply | arp_mitm.c:289-309 | a reply seen while poisoning adds exactly sender IP → sender MAC when the IP is new, and changes nothing when it is known |
| ArpMitm.LearnAllFirstSeenWins | arp_mitm.c:246-315 | over any frame sequence, stored MACs are never replaced, every MAC stays six bytes, and every new key comes from a reply |
| ArpMitm.OnArpPacketCaptured | arp_mitm.c:246-315 | the handler updates the table by the learning rule, or leaves it when the insertion cannot be stored |
| ArpMitm.KeyCmpZero | arp_mitm.c:56-58 | the key comparison is 0 iff the keys are equal |
| ArpMitm.KeyHash | arp_mitm.c:60-62 | the key hash is below `size - 1` |
| ArpMitm.Unpoison | arp_mitm.c:135-144 | `arp_poisoning` becomes 0 and the table is untouched |
| ArpMitm.OwnWhoHasNotLearned | arp_mitm.c:177-227 | a frame carrying our own who-has is classified as a request and teaches the table nothing |
| ArpMitm.WhoHasSender.constructor | arp_mitm.c:146-176 | both tags start as `LIBNET_PTAG_INITIALIZER` and no local MAC is cached |
| ArpMitm.WhoHasSender.Send | arp_mitm.c:146-244 | the local MAC is cached on first success; without it -1 and the tags kept; a build or write failure gives -1 and resets both tags; 0 iff all succeed, and then the fields sent are the broadcast who-has for the target, and the throttle runs |
| Context.ResetterContext.constructor | resetter.c:154 | the context after `memset(ctx, 0, …)`: no target port, an empty filter, poisoning off, an empty ARP table, no pcap or libnet handle, the stats clock at 0 |
| Resetter.Truncate | resetter.c:156-165 | `snprintf` truncation: at most `n` characters, a prefix of the input, the whole input when it fits |
| Resetter.TargetFilter | resetter.c:156-165 | below 1000 characters, and a prefix of the expression the format asks for |
| Resetter.TargetFilterNoTarget | resetter.c:156-165 | no target IP and port 0 give the empty filter |
| Resetter.TargetFilterPortOnly | resetter.c:160-161 | "tcp port " followed by the port's decimal digits |
| Resetter.TargetFilterHostOnly | resetter.c:162-163 | "host " followed by the IP, truncated to 999 characters |
| Resetter.TargetFilterHostAndPort | resetter.c:156-159 | "( host IP && tcp port P )", from which the IP and the port can be read back |
| Resetter.StrNCopy | resetter.c:52 | `strncpy` leaves a terminated string iff the source is shorter than the buffer |
| Resetter.UpdatedFilterShape | resetter.c:31-56 | the ACK-test prefix followed by the old filter, or by "tcp" when it was empty, within 999 characters |
| Resetter.UpdatedFilterAsWrittenFits | resetter.c:31-56 | a filter of under 964 characters is copied back terminated |
| Resetter.UpdatedFilterAsWrittenUnterminated | resetter.c:52 | a filter of 964 or more characters leaves `filter_string` with no terminating NUL |
| Resetter.LongTargetIpUnterminated | resetter.c:152-174 | a target IP of 959 or more characters leads to an unterminated filter |
| Resetter.UpdatePcapFilter | resetter.c:31-56 | as written: -1 and no change on allocation failure; otherwise the `strncpy` result |
| Resetter.UpdatePcapFilterTerminated | resetter.c:31-56 | corrected: the composed filter, always terminated |
| Resetter.StartResetterThread | resetter.c:152-175 | as written: a zeroed context holding the port; the filter is the target filter composed with the ACK test by the `strncpy` copy, so it is left unterminated when the composition reaches 1000 characters; the bare target filter when the allocation fails |
| Resetter.StartWithLongTargetIp | resetter.c:152-174 | a fresh context started with a target IP of 959 or more characters and no port ends with an unterminated filter |
| Resetter.SourceAddr | resetter.c:212-213 | the IP source address is four bytes |
| Resetter.DestAddr | resetter.c:212-213 | the IP destination address is four bytes |
| Resetter.SynOrAckBits | resetter.c:197-200 | the flag test passes iff bit SYN (0x02) or bit ACK (0x10) is set |
| Resetter.SynOrAckExamples | resetter.c:197-200 | SYN, ACK, SYN+ACK and RST+ACK pass; a bare RST, a bare FIN and no flags do not |
| Resetter.OnSynAckAccepts | resetter.c:197-207 | a segment is accepted iff it has SYN or ACK and, with a port set, one of its ports matches |
| Resetter.OnSynAckNoPortFilter | resetter.c:202-207 | with port 0 there is no port filtering |
| Resetter.OnSynAckSwaps | resetter.c:209-220 | the RST goes from the captured destination to the captured source, and its sequence number is the captured ACK |
| Resetter.RstOnlyReset | resetter.c:77-122 | the RST carries RST and neither FIN, SYN nor ACK, is a TCP datagram of header length only, and a captured frame with its flags is never answered |
| Resetter.RstAnswersSegment | resetter.c:77-122 | the RST has the swapped addresses and ports, the captured ACK as sequence, urgent pointer 0, TTL 64, TOS low-delay, protocol TCP, and length IPv4 + TCP header |
| Resetter.ResetSender.constructor | resetter.c:58-76 | both tags start as `LIBNET_PTAG_INITIALIZER` |
| Resetter.ResetSender.Send | resetter.c:58-138 | 0 iff the TCP build, the IP build and the write succeed, and then the fields sent are the RST's; otherwise -1 and both tags reset |
| Resetter.OnSynackPacketCaptured | resetter.c:189-221 | a dropped segment sends nothing and changes no tag or clock; an accepted one sends the RST for it, sets the tags to the builders' results and advances the stats clock by the throttle rule, or, when sending fails, sends nothing, resets both tags and leaves the clock |
| Resetter.Releases | resetter.c:223-237 | pcap is closed iff it was open and libnet destroyed iff it was open, each at most once |
| Resetter.Cleanup | resetter.c:223-237 | the releases are those, and both handles end NULL |
| Resetter.CleanupTwice | resetter.c:223-237 | a second cleanup releases nothing |

## Left out

- Heap allocation is a boolean parameter (`allocOk`, `stored`) where the
  code reports a failed `malloc` and the model keeps that branch. Elsewhere
  allocation is assumed to succeed. Freeing is not modelled, so leaks and
  use-after-free are not detected. For example, root `ht_get` after
  `ht_destroy`, `ht_del` freeing a node that is still linked, and
  `list_pop` reading the node it freed are all outside the model.
- LegacyList.List.Pop: returns the last value, as the code evidently means,
  not whatever the freed node holds when `list.c:165-167` reads it.
- HashTable.Table.SetEntry: requires that the key's bucket is not an
  emptied list. `ht_set_entry` dereferences a NULL head in that case
  (`utils/hash_table.c:190-193`).
- HashTable.Table.Set: the same requirement, through `ht_set_entry`.
- HashTable.Table.Rehash: requires `index != null || indexSize == 0`, and
  `newSize >= 2` unless the map is empty. With one slot, `find_index`
  divides by zero. With none, `index_size - 1` wraps to `SIZE_MAX` in
  `size_t`, so the hash itself indexes an empty index.
- HashTable.Table.SetEntry, Set, SetInitEntry, Get and Del: require an
  index of at least 2 slots when it is not NULL, for the same two reasons.
  The program's only `ht_init`, of the ARP table with 100 slots
  (`arp_mitm.c:75`), meets this.
- Key comparison in both hash tables is modelled as equality, which is what
  both comparators in the code compute. The `utils/` hash function
  (murmur3) is not part of this model; it is a function parameter.
- Integer widths:
  - `size_t` counts are `nat`;
  - `int` positions are `int`;
  - the ARP keys are `nat` below 2^32;
  - bytes are a `Byte` newtype.
  Wrap-around is written out only where it matters: the key comparison,
  the root default hash and the `u_long` clock difference.
- ArpMitm.SenderIp: reads the key in little-endian order, as a `uint32_t`
  load does on x86. A big-endian host would store different keys.
- ArrayList.ArrayList.InsertAt: requires that the insertion fits in the
  array. `shift_right` overflows it otherwise (see Findings).
- ArrayList.ArrayList.PushHead, ArrayList.ArrayList.PushTail: the same
  requirement, through insert_at.
- ArrayList.ArrayList.constructor: allocates `capacity` pointer slots,
  that is `capacity * sizeof(void*)` bytes. The code requests
  `capacity * value_size` bytes for its array of `void*` (see Findings);
  only AllocatedSlots models that size. The scenarios therefore replay
  tests/array_list_test.c as if `value_size` were the pointer size. With
  the test's `sizeof(int)` on LP64, the second `push_tail` already writes
  past the 12-byte buffer.
- ArrayList.ArrayList.AllocArray: the same, `capacity` pointer slots
  rather than `capacity * value_size` bytes, for `malloc` and `realloc`.
- The array list stores the `void*` values themselves, as the code does,
  modelled as values of a type with equality. `realloc`'s copy is modelled as a fresh array holding the old
  values. NULL values are not distinguished from absent ones.
- NetUtils.Ip2Long, NetUtils.Long2Ip, NetUtils.IpMatches: their bodies are
  not part of this model's sources. The grammar of a dotted quad (1–3
  digits per field, at most 255) is assumed, and everything else parses as
  the failure value.
- libnet's byte serialisation, checksums and its random values are left
  out. The RST's random ACK, window and IP id are parameters; the
  builders' and the writer's return codes are parameters.
- Printing to the console and the statistics text itself are left out.
  Only the decision to report is modelled.
- ARP cleanup, which the code performs through the table and its handles,
  is left out. Restoring poisoned mappings is a TODO in `unpoison` and is
  not modelled.
- `_init_libnet`, `start_arp_mitm_thread`, the pthread code, the pcap
  capture loop, `listener.c` and `main.c` are left out: they are process
  and library plumbing.
- `target_addr` / `inet_addr` conversions are left out, and the who-has
  target is given as four bytes.
- LegacyHashTable.Table.Destroy: sets the index to `null` to stand for
  "freed". Root `ht_destroy` frees it without clearing the pointer, so
  the dangling index that later calls would use is not modelled.
- LinkedList.List.FindNodeAt, GetAt, Head, Tail, Iter and Destroy
  require `Linked()`, and PushHead requires `Valid()`. The `next`-only walks
  in `utils/list.c` would also run after an as-written `list_pop_head`, but
  nothing in the program or its tests calls `list_pop_head`, so no
  reachable list is excluded.
- HashTable.Table.constructor, LegacyHashTable.Table.constructor: record
  the hash even when the allocation fails, where `ht_init` returns -1
  before setting `key_cmp` and `key_hash`. The -1 itself is the NULL index.
  A NULL comparator or hash, which `ht_init` replaces with its default, is
  not modelled: the hash is always given and comparison is equality.
- Strings are `seq<char>` without a terminating NUL. A buffer left
  unterminated by `strncpy` is `None`.
- Resetter.Cleanup: the second `if (ctx->pcap != NULL)` in `_cleanup` can
  never be true after the first one has set the handle to NULL, so the
  model has no branch for it.

## Findings

| source | as written | input that shows it | evidently intended | confidence | as-written member | corrected member |
|---|---|---|---|---|---|---|
| utils/list.c:77-87 | `list_insert_at` allocates the node and points it at its neighbours but links neither neighbour to it, then increments `size` | `list_insert_at(l, v, 0)` on the list [7] | the new node is linked in before `pos` | not executed; high | LinkedList.InsertAtLeavesNodeUnlinked | LinkedList.List.InsertAtLinked |
| utils/list.c:171-186 | `list_pop_head` moves `head` on but leaves `tail` at the popped node, and leaves the new head's `prev` pointing at it | `list_pop_head` on a one-element list: `head` NULL, `size` 0, `tail` still set | `tail` cleared when the list empties; the new head's `prev` set to NULL | not executed; high | LinkedList.PopHeadLeavesStaleTail | LinkedList.List.PopHeadRelinked |
| utils/hash_table.c:84-117 | `ht_rehash` re-adds every entry through `ht_set_entry`, which counts each one again, without resetting `entry_size` | rehashing a table holding one entry leaves `entry_size` 2 | `entry_size` equal to the number of entries after rehashing | not executed; high | HashTable.Table.Rehash | HashTable.Table.RehashRecounted |
| utils/array_list.c:77-85 | `shift_right` grows the array only when `pos + 1 >= capacity` | `push_head` on a full list of size 3 and capacity 3: the shift writes slot 3 | grow whenever `size == capacity` | not executed; high | ArrayList.ShiftRightOverflows | ArrayList.ArrayList.InsertAtGrowing |
| utils/array_list.c:17 | `alloc_array` requests `capacity * value_size` bytes for an array of `void*` slots | `array_list_init(&lst, sizeof(int), 3)` on LP64: 12 bytes, one whole slot, and the second `push_tail` writes slot 1 past them | `capacity * sizeof(void*)` bytes, `capacity` slots | not executed; high | ArrayList.IntListUnderAllocated | ArrayList.ArrayList.constructor |
| hash_table.c:130-148 | root `ht_del` on a bucket of several entries returns -1 even after a match, and does not move the bucket pointer when the match heads the chain | deleting key 1 from a chain [1 → 10, 2 → 20] returns -1 and key 1 is still found | 0 and the key removed from its chain | not executed; high | LegacyHashTable.DelAsWrittenCounterexample | LegacyHashTable.Table.DelUnlinking |
| resetter.c:52 | `strncpy(ctx->filter_string, filter, sizeof(ctx->filter_string))` leaves no NUL when the composed filter has 1000 or more characters | a target IP of 959 or more characters and no port | the copy truncated to 999 characters and terminated | not executed; medium | Resetter.LongTargetIpUnterminated | Resetter.UpdatePcapFilterTerminated |
