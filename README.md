# my-go-redis core, modelled in Dafny

This project models the storage and event core of a small Redis clone
written in Go, and proves properties of that model:

- `dict.go`: the dictionary. It is a chained hash table with two tables and
  incremental rehashing. One bucket moves from the old table to the new one
  on each lookup, insert or delete that happens while a rehash is running.
  Growth is triggered from `dictExpandIfNeeded`.
- `list.go`: a doubly linked list of objects, searched with the list's
  equality function.
- `ae.go`: the reactor's bookkeeping. This covers the file event table keyed
  by `getFeKey`, the epoll interest masks derived from it, the timer list,
  the timeout computation of `AeWait`, and what `AeProcessEvents` does to
  the timers.
- `obj.go`: the reference-counted object wrapper.
- `net.go`: `addrInet4ToBytes`, the dotted-quad IPv4 parser.

The code is modelled in two layers.

- `DictSpec` holds values: a table is its buckets and its `used` counter,
  and a state is the two tables plus the rehash cursor. Here the invariants
  are proved once: every entry sits in the bucket of its hash, keys are
  unique, `used` counts the entries, and no bucket before the cursor holds
  anything. The properties of lookup, insert, delete and migration are
  proved here too.
- `Dict` holds the objects: `DictHashTable` over an array of chains, and
  `Dict` over the two tables and `rehashIdx`. Every method that changes or
  searches the tables is proved equal, through `Abs()`, to the `DictSpec`
  function of the same operation. There are two exceptions:
  - The random draw (`DictGetRandomKey`, `PickEntry`) is proved only to
    return an entry of the dictionary.
  - The reference-count steps (`StoreVal`, `ReplaceVal`, `ReplaceValFixed`,
    `ReleaseEntry`, `FreeEntry`) leave `Abs()` unchanged or do not touch the
    tables. They state the counts and payloads of the key and value objects.

`List`, `Obj` and `Ae.EventLoop` are classes whose methods update their
fields as the Go methods do. `Net` and `Strconv` are pure functions. The
part of Go's `strconv` that the core calls (`ParseInt`, `Atoi`,
`FormatInt`) is modelled in `Strconv`.

The `Dict` class follows the code as written. That includes the growth rule,
which never lets the table grow (see Findings). The corrected
`ExpandIfNeededFixed`, `NextPowerChecked`, `DictGetRandomKeyChecked`,
`ReplaceValFixed` and `FeKeyFixed` stand beside the as-written members. Each
carries the property the code evidently intends.

Two behaviours of the code are worth stating, because a reader might expect
otherwise:

- `AeWait` floors the timeout to 10 ms only when it is `<= 0` (ae.go:224-225).
  It is not `max(10, nearest - now)`, so a timeout of 1 to 9 ms passes
  unchanged.
- `rehashIdx` can reach the size of the old table (dict.go:91), not only
  values below it.

## Model

| member | source | states |
|---|---|---|
| Obj.RedisObj.CreateObject | obj.go:43-49 | the new object has the given type tag and payload, with a reference count of 1 |
| Obj.RedisObj.CreateFromInt | obj.go:35-41 | a string object holding the decimal text of n, with count 1; `IntVal()` reads back exactly n |
| Obj.RedisObj.StrVal | obj.go:28-33 | `""` for a non-string object, otherwise the stored string |
| Obj.RedisObj.IntVal | obj.go:20-26 | 0 for a non-string object; the result always lies in the int64 range, because a range error yields the clamped bound and a syntax error yields 0 |
| Obj.RedisObj.IncrRefCount | obj.go:51-53 | the count goes up by one and the payload is untouched |
| Obj.RedisObj.DecrRefCount | obj.go:55-61 | the count goes down by one, and the payload becomes nil exactly when the count reaches 0 |
| Strconv.Atoi | net.go:39 | a parsed value lies in the int64 range |
| Strconv.ParseIntIgnoringError | obj.go:24 | the value left by a discarded error lies in the int64 range |
| Strconv.FormatNat | obj.go:38 | the decimal text is non-empty and all digits |
| Strconv.ParseIntInRange | obj.go:24 | a successful parse is in range, and a range error carries MinInt64 or MaxInt64 |
| Strconv.FormatNatValue | obj.go:38 | the digits FormatInt writes denote n |
| Strconv.ScanShort | net.go:39 | a text of at most 19 characters never overflows, and fails with a syntax error exactly when a non-digit follows the sign |
| Strconv.ParseFormatInt | obj.go:24-38 | round trip: ParseInt(FormatInt(n)) is Ok(n) for every int64 n |
| Strconv.ParseFormatIgnoringError | obj.go:24-38 | round trip through IntVal and Atoi: both read back n from FormatInt(n) |
| Strconv.MalformedIsZero | obj.go:24 | a short malformed text is a syntax error: IntVal yields 0 and Atoi fails |
| Net.Split | net.go:37 | strings.Split gives at least one field, and no field contains the separator |
| Net.SplitConcat | net.go:37 | splitting `x.y` gives the fields of x followed by the fields of y |
| Net.SplitNoSeparator | net.go:37 | a text without the separator is one field |
| Net.SplitFour | net.go:37 | four dot-free texts joined by dots split back into exactly those four |
| Net.ConvertFields | net.go:38-44 | the loop succeeds iff the first n fields exist and all parse, and then byte i is Atoi(field i) truncated to 8 bits |
| Net.AddrInet4ToBytes | net.go:35-46 | ok iff four fields exist and all parse; byte i is `byte(Atoi(field i))`; on error the result is the zero address |
| Net.ConvertIgnoresExtra | net.go:38-44 | fields after the n-th never affect the loop |
| Net.ExtraFieldsIgnored | net.go:38 | appending `.tail` to an address does not change its parse |
| Net.ParsableFieldsReachable | net.go:38-44 | when n fields exist and all parse, the loop never indexes past the end |
| Net.FormattedByteHasNoDot | net.go:37 | the decimal text of a byte holds no dot |
| Net.FormattedByte | net.go:39-43 | the decimal text of a byte parses back to it and survives the byte truncation |
| Net.ByteRoundTrip | net.go:43 | `byte(a)` is the identity on values 0..255 |
| Net.ParseFormattedAddress | net.go:35-46 | round trip: every 4-byte address printed in dotted decimal parses back to itself with no error |
| Net.Loopback | net.go:35-46 | "127.0.0.1" parses to 127, 0, 0, 1 |
| Net.ParseQuad | net.go:35-46 | four parsable dot-free fields give the four truncated values and no error |
| Net.TooLargeWraps | net.go:43 | there is no range check: "256.0.0.1" parses to 0, 0, 0, 1 with no error |
| Net.NegativeWraps | net.go:43 | there is no range check: "-1.0.0.1" parses to 255, 0, 0, 1 with no error |
| Net.ShortFieldsOverrun | net.go:38-39 | fewer than n fields that all parse make the loop index past the end |
| Net.ThreeFieldsOverrun | net.go:37-39 | "1.2.3" makes the loop index a fourth field that does not exist |
| Net.FirstBadFieldFails | net.go:39-42 | "1.x" returns the error and the zero address before any overrun |
| List.ListNode.constructor | list.go:50-51 | a new node holds the value and no links |
| List.FirstMatch | list.go:38-47 | the index of the first value equal to v under the list's equality, or the length when none is |
| List.MemberFound | list.go:38-47 | a value that is in the list is found no later than its position |
| List.RemoveNode | list.go:77-106 | removing node k removes value k and keeps the nodes distinct and within the footprint |
| List.List.ListCreate | list.go:20-24 | an empty, well-linked list with the given equality |
| List.List.ListLength | list.go:26-28 | the length field equals the number of values |
| List.List.ListFirst | list.go:30-32 | nil iff the list is empty, otherwise the first node |
| List.List.ListLast | list.go:34-36 | nil iff the list is empty, otherwise the last node |
| List.List.ListSearchKey | list.go:38-47 | the node at the first matching position, or nil when no value matches |
| List.List.ListAddNodeHead | list.go:49-61 | the values become `[v] + old values`; the old nodes follow, the links stay mirrored and the length grows by one |
| List.List.ListAddNodeTail | list.go:63-75 | the values become `old values + [v]`; the old nodes come first, the links stay mirrored and the length grows by one |
| List.List.ListDelKey | list.go:77-106 | exactly the first matching node is removed, with its links cleared; the other nodes and values keep their order, the links stay mirrored and the length drops by one |
| List.List.Unlink | list.go:80-103 | the given node leaves the list with both of its links cleared |
| List.List.Splice | list.go:80-103 | the pointer surgery: the head, the tail and the neighbours' links skip node k, and nothing else changes |
| List.List.ListDelNode | list.go:108-112 | nil leaves the list unchanged; otherwise the first node equal to n's value is removed, with its links cleared |
| Ae.FeKeyCollision | ae.go:55-61 | two registrations share a key iff they are identical, or of opposite kinds on opposite descriptors |
| Ae.FdZeroSharesKey | ae.go:55-61 | on non-negative descriptors, two different registrations collide only on descriptor 0 |
| Ae.FeKeyFixedInjective | ae.go:55-61 | the corrected key separates every pair of registrations |
| Ae.MaskOf | ae.go:66-75 | EPOLLIN is set iff a readable event is registered for fd, EPOLLOUT iff a writable one is, and no other bit is set |
| Ae.RegisterSetsBit | ae.go:93-118 | on fd != 0, registering a kind ORs exactly its bit into the mask |
| Ae.UnregisterClearsBit | ae.go:126-147 | on fd != 0, removing a kind clears exactly its bit from the mask |
| Ae.FdZeroCollision | ae.go:93-95 | on fd 0 a registered readable event makes the writable bit read as set |
| Ae.Nearest | ae.go:209-219 | nearestTime is at most the bound and at most every `when`, and is either the bound or some timer's `when` |
| Ae.DueTimers | ae.go:253-260 | the collected timers are exactly those of the list with `when < now` |
| Ae.DueDistinct | ae.go:253-260 | the collected timers keep the list's descending ids, so no two share an id |
| Ae.ReadyFiles | ae.go:237-250 | at most two events per report, each one registered in the table |
| Ae.ReadyComplete | ae.go:237-250 | every registered event whose bit a report carries is collected |
| Ae.FdZeroSelectedTwice | ae.go:237-250 | on fd 0, one report for both directions collects the same event twice |
| Ae.RemoveId | ae.go:168-184 | no new timer appears; one timer goes when the id is present; nothing changes when it is absent |
| Ae.RemoveIdAt | ae.go:171-183 | the first timer with the id is cut out, and the rest keep their order |
| Ae.RemoveIdKeeps | ae.go:168-184 | every timer with another id stays |
| Ae.RemoveIdExact | ae.go:168-184 | with descending ids, the id is gone afterwards and the order is kept |
| Ae.RemoveIdOk | ae.go:168-184 | deletion keeps ids in `[1, timeEventNextId)` and strictly descending |
| Ae.SetWhen | ae.go:195 | the timer with the id gets the new `when`, and every other timer is unchanged |
| Ae.SetWhenIds | ae.go:195 | rescheduling changes no id and keeps every other timer |
| Ae.ApplyKeepsOthers | ae.go:189-198 | one processed timer leaves every timer with another id in place |
| Ae.ApplyTimerKeeps | ae.go:189-198 | one processed timer keeps the id invariant and adds no id, and a once-only timer's id is gone |
| Ae.ProcessKeepsOk | ae.go:187-199 | the whole timer loop keeps the id invariant and adds no id |
| Ae.ProcessKeepsOthers | ae.go:187-199 | a timer whose id is not among the due ids comes out of the loop unchanged |
| Ae.OnceTimersRemoved | ae.go:196-197 | after the loop, every once-only due timer is gone |
| Ae.RescheduledInPlace | ae.go:195 | a repeating timer in the list is there with `when = now + duration` after its step |
| Ae.NormalRescheduled | ae.go:190-195 | after the loop, every repeating due timer i is in the list with `when = nows[i] + duration` |
| Ae.ProcessOutcome | ae.go:187-199 | both outcomes together: repeating timers are rescheduled at their own clock reading, and once-only timers are deleted |
| Ae.TimerTrace | ae.go:187-188 | one timer callback per due timer, in order |
| Ae.FileTrace | ae.go:200-205 | one file callback per ready event, in order |
| Ae.EventLoop.AeCreateEventLoop | ae.go:77-88 | no file events, no timers, the next id is 1, and the loop is not stopped |
| Ae.EventLoop.AeCreateFileEvent | ae.go:91-120 | nothing happens when the kind's bit is already set; otherwise it issues ADD on an empty mask or MOD, with the mask plus the bit, and registers the event iff epoll_ctl succeeds |
| Ae.EventLoop.AeDeleteFileEvent | ae.go:123-149 | it issues DEL when no bit remains, otherwise MOD with the remaining bits, and unregisters the event iff epoll_ctl succeeds |
| Ae.EventLoop.AeCreateTimeEvent | ae.go:152-165 | a timer with a fresh id, larger than every existing id, is put at the head with `when = now + duration`, and the next id goes up by one |
| Ae.EventLoop.AeDeleteTimeEvent | ae.go:168-184 | the list loses exactly the timers with that id; nothing else changes |
| Ae.EventLoop.TimerPosition | ae.go:171-183 | the position of the first timer with the id, or the length |
| Ae.EventLoop.NearestTime | ae.go:209-219 | the loop computes `Nearest(timers, now + 1000)` |
| Ae.EventLoop.AeWait | ae.go:221-263 | timeout = nearest - now when positive, else 10; it is never above 1000 when the clock does not go back; the collected file events and due timers are exactly those defined by `ReadyFiles`/`DueTimers`, and the due timers come from the list with distinct ids |
| Ae.EventLoop.CollectReady | ae.go:237-250 | the loop collects `ReadyFiles(table, reports)` |
| Ae.EventLoop.CollectDue | ae.go:253-260 | the loop collects `DueTimers(list, now)` |
| Ae.EventLoop.RunTimer | ae.go:189-198 | a repeating timer is rescheduled and a once-only timer is deleted |
| Ae.EventLoop.RunDueTimers | ae.go:187-199 | the timer loop yields `ProcessTimers` over all due timers, with their callbacks in order |
| Ae.EventLoop.AeProcessEvents | ae.go:186-206 | every repeating due timer i ends with `when = nows[i] + duration`; every once-only due timer is gone; the file table is untouched; callbacks run for the timers, then for the files |
| DictSpec.DictEntry.constructor | dict.go:196-197 | a new entry holds its key and no value |
| DictSpec.Slot | dict.go:82 | `h & mask` falls inside the table |
| DictSpec.NextPowerFrom | dict.go:101-108 | the doubling loop returns a power of two, at least 8, at least size and at most 2^62 |
| DictSpec.DoublePower | dict.go:102 | doubling a power below 2^62 gives a power of at most 2^62 |
| DictSpec.PowerAtLeast8 | dict.go:102 | every table size the loop produces is at least DICT_HT_INITIAL_SIZE |
| DictSpec.NextPowerMinimal | dict.go:101-108 | dictNextPower returns the least admissible size that reaches size |
| DictSpec.PowerLoopVarRange | dict.go:102 | the int64 loop variable is a power up to 2^62, or has wrapped to -2^63 and then to 0 |
| DictSpec.NextPowerNeverReturns | dict.go:101-108 | as written, for size > 2^62 both loop tests keep the loop going on every pass |
| DictSpec.NextPowerCheckedSpec | dict.go:101-108 | corrected: -1 exactly when size > 2^62, otherwise the least admissible size that reaches size |
| DictSpec.NextNonEmpty | dict.go:73-75 | the skip loop stops at the first non-empty bucket from the cursor on |
| DictSpec.NonEmptyAhead | dict.go:73-75 | while the old table holds entries, a non-empty bucket lies at or after the cursor |
| DictSpec.MoveChain | dict.go:78-88 | moving a chain keeps the number of buckets of the new table |
| DictSpec.MoveChainBag | dict.go:78-88 | the new table gains exactly the moved chain's entries |
| DictSpec.MoveChainPlaced | dict.go:82-84 | every moved entry lands in its own hash bucket of the new table |
| DictSpec.StepSwap | dict.go:65-70 | the swap at `used == 0` keeps the invariant and the content |
| DictSpec.StepMove | dict.go:73-92 | moving one bucket keeps the invariant, the content and the total `used`, and advances the cursor |
| DictSpec.StepAtOk | dict.go:77-91 | moving the bucket at i keeps the invariant, the content and the total `used` |
| DictSpec.StepPreserves | dict.go:63-93 | one step keeps the invariant and the content, and strictly decreases the work left |
| DictSpec.RehashKeeps | dict.go:58-94 | DictRehash(n) keeps the invariant and the content |
| DictSpec.StepAdvances | dict.go:63-93 | n steps are one step and then n - 1, and a step that ends the rehash ends the loop |
| DictSpec.RehashStep | dict.go:96-99 | DictRehashStep keeps the invariant and the content, and does nothing when no rehash runs |
| DictSpec.RehashEnds | dict.go:58-94 | enough steps always finish the rehash |
| DictSpec.RehashWithinSize | dict.go:58-94 | size + 1 steps always finish the rehash |
| DictSpec.ChainIndex | dict.go:162-167 | the position of the first key in the chain that is equal to k, or the chain's length |
| DictSpec.Lookup | dict.go:213-228 | a found entry belongs to the dictionary and has an equal key |
| DictSpec.LookupComplete | dict.go:206-229 | searching both tables finds nothing iff no stored key equals k |
| DictSpec.LookupUnique | dict.go:206-229 | the search returns the one stored entry whose key equals k |
| DictSpec.LookupByContent | dict.go:206-229 | the search depends only on the content, not on where the entries sit |
| DictSpec.RehashKeepsLookup | dict.go:210-212 | any number of rehash steps leaves every search result unchanged |
| DictSpec.LookupByBuckets | dict.go:214-227 | the search finds k iff the key's bucket in the first table does, or the one in the second does while rehashing |
| DictSpec.FindSpec | dict.go:206-229 | DictFind keeps the invariant and the content, finds an entry iff the key is stored, and returns the entry with an equal key |
| DictSpec.Wrap64 | dict.go:143 | the int64 product is in range and congruent to the exact product mod 2^64 |
| DictSpec.EmptyTable | dict.go:116-120 | the new table has n empty buckets and `used` = 0 |
| DictSpec.ExpandKeeps | dict.go:110-132 | EP_ERR iff rehashing or `used > size`, and the state is then unchanged; otherwise the content is kept and a first table exists |
| DictSpec.ExpandSize | dict.go:111-131 | the new table has the least power-of-two size reaching the request, is empty, and becomes the first table, or the second one with the cursor at 0 |
| DictSpec.DoubleWraps | dict.go:143 | the int64 doubling of a table size never exceeds 2^62 |
| DictSpec.ExpandIfNeededFails | dict.go:134-146 | as written, growth fails exactly when it is due, and then nothing changes; otherwise the content and the rehash status are kept |
| DictSpec.GrowthRefused | dict.go:142-143 | as written, whenever growth is due the expand is refused with EP_ERR |
| DictSpec.KeyIndex | dict.go:152-177 | a returned index lies inside the table that inserts go to |
| DictSpec.KeyIndexSpec | dict.go:152-177 | -1 iff the key is stored or growth is due, otherwise the key's bucket in the insert table, and the content is kept |
| DictSpec.InsertTableOk | dict.go:196-201 | pushing an entry onto its hash bucket keeps the table invariant and adds exactly that entry |
| DictSpec.InsertKeeps | dict.go:189-201 | inserting an absent key keeps the dictionary invariant and adds exactly the entry |
| DictSpec.AddRawSpec | dict.go:179-204 | DictAddRaw fails iff the key is stored or growth is due; success adds exactly the entry and failure changes no content |
| DictSpec.AddThenFind | dict.go:179-229 | after a successful add, a search for the key returns the new entry |
| DictSpec.AddRawInserts | dict.go:179-204 | a successful add is the insert at the key's bucket of the state after one rehash step |
| DictSpec.DeleteInOk | dict.go:267-283 | unlinking from one table removes the entry the chain search finds and keeps the table invariant |
| DictSpec.ChainRemoveOk | dict.go:272-278 | cutting position j from a chain keeps the table invariant and removes exactly that entry |
| DictSpec.DeleteAt | dict.go:266-287 | a table that does not hold the key is left unchanged |
| DictSpec.RemovedKeeps | dict.go:277-278 | removing the entry for k keeps the invariant and leaves no key equal to k |
| DictSpec.DeleteFromFirst | dict.go:266-283 | a key found in the first table is removed from there |
| DictSpec.DeleteFromSecond | dict.go:266-287 | a key found only in the second table, while rehashing, is removed from there |
| DictSpec.DeleteFromSpec | dict.go:265-288 | deletion removes the entry for k iff one is stored, and leaves no key equal to k |
| DictSpec.DeleteSpec | dict.go:258-289 | DictDelete keeps the invariant; NK_ERR iff the key is absent; otherwise exactly the stored entry for k leaves the content |
| DictSpec.DeleteTakesFound | dict.go:258-289 | the entry deleted is the one DictFind would return |
| DictSpec.SlotsHoldContent | dict.go:309-324 | every chain the draw can pick holds dictionary entries, and a non-empty dictionary has a non-empty chain to pick |
| DictSpec.GrowthBlocksAdd | dict.go:142-143 | as written, 24 entries in 8 buckets refuse a 25th new key |
| DictSpec.SetAfterRefusedGrowth | dict.go:243-248 | as written, DictSet on a new key while growth is due finds no entry after the refused add |
| DictSpec.EmptyDrawsNothing | dict.go:311-323 | as written, on an empty dictionary with a table every bucket the draw can pick is empty |
| DictSpec.FixedGrowthStartsRehash | dict.go:134-146 | corrected: due growth starts a rehash into twice the buckets with the cursor at 0, and the new key is then inserted |
| Dict.DictHashTable.constructor | dict.go:116-120 | n empty buckets, `mask = n - 1`, `used = 0` |
| Dict.DictHashTable.PushFront | dict.go:199-201 | the entry becomes the head of bucket idx, and `used` goes up by one |
| Dict.DictHashTable.UnlinkKey | dict.go:267-283 | the table becomes the value-level deletion of k, returning the unlinked entry |
| Dict.ChainPosition | dict.go:268-283 | the chain walk stops at the first key equal to k |
| Dict.Dict.DictCreate | dict.go:47-52 | no tables, cursor -1, empty content |
| Dict.Dict.DictIsRehashing | dict.go:54-56 | true iff a second table exists, i.e. a rehash is in progress |
| Dict.Dict.MoveNextBucket | dict.go:72-92 | one pass of the bucket loop is one value-level step |
| Dict.Dict.SkipEmptyBuckets | dict.go:73-75 | the cursor stops at the first non-empty bucket, skipping only empty ones |
| Dict.Dict.MoveBucket | dict.go:77-91 | the bucket at the cursor is emptied into its new buckets, `used` moves with it, and the cursor advances |
| Dict.Dict.RehashPass | dict.go:64-92 | one pass of DictRehash's loop, ending with the swap when the old table is empty |
| Dict.Dict.DictRehash | dict.go:58-94 | the dictionary becomes `RehashN(old, step)` |
| Dict.Dict.RehashPasses | dict.go:63-93 | the step loop yields `RehashN` |
| Dict.Dict.DictRehashStep | dict.go:96-99 | the dictionary becomes `RehashStep(old)` |
| Dict.Dict.DictExpand | dict.go:110-132 | state and error are those of `Expand`: refusal, first table, or start of a rehash |
| Dict.Dict.InstallTable | dict.go:116-131 | an empty table becomes the first table, or the second with the cursor at 0 |
| Dict.Dict.DictExpandIfNeeded | dict.go:134-146 | state and error are those of `ExpandIfNeeded` |
| Dict.Dict.SearchChain | dict.go:162-167 | the chain walk finds the first entry with an equal key |
| Dict.Dict.DictKeyIndex | dict.go:152-177 | state and index are those of `KeyIndex` |
| Dict.Dict.SearchFreeIndex | dict.go:157-176 | -1 iff the key is stored, otherwise the key's bucket in the insert table |
| Dict.Dict.DictAddRaw | dict.go:179-204 | nil iff the key is stored or growth is due; otherwise a fresh entry for the key, holding its reference, is the only content added; the key's payload is kept |
| Dict.Dict.RehashThenKeyIndex | dict.go:180-186 | one rehash step, then the key index; -1 iff the key is stored or growth is due |
| Dict.Dict.InsertEntry | dict.go:189-203 | a fresh entry for the key is pushed onto bucket idx of the insert table, and the key's count goes up by one |
| Dict.Dict.DictAdd | dict.go:232-240 | EX_ERR iff the key is stored or growth is due, and then nothing changes; otherwise exactly one new entry maps key to val, and both counts go up; the payloads of key and val are kept either way |
| Dict.Dict.StoreVal | dict.go:237-238 | the entry holds val, and val's count goes up by one |
| Dict.Dict.DictSet | dict.go:243-251 | a new key is added with both counts up and both payloads kept; an existing key keeps its entry, which now holds val. The counts move by the Decr/Incr swap. The replaced value loses its payload iff its count reaches 0. A count-1 self-replace clears val's payload |
| Dict.Dict.TryAdd | dict.go:244-245 | the DictAdd attempt inside DictSet: success iff the key is new, keeping both payloads; on failure nothing changes |
| Dict.Dict.UpdateStored | dict.go:247-250 | the stored entry gets val, and the counts and payloads move as in ReplaceVal |
| Dict.Dict.ReplaceVal | dict.go:248-250 | as written: the old value's count drops first and it loses its payload iff that reaches 0. So replacing a value by itself at count 1 clears its payload. Every other payload is kept |
| Dict.Dict.ReplaceValFixed | dict.go:248-250 | corrected: the new count is taken first, so a self-replace keeps the payload at every positive count. A distinct old value loses its payload iff its count reaches 0 |
| Dict.Dict.DictFind | dict.go:206-229 | state and result are those of `Find`: one rehash step, then the search of both tables |
| Dict.Dict.SearchTables | dict.go:213-228 | the search of the first table, then of the second while rehashing, is `Lookup` |
| Dict.Dict.DictDelete | dict.go:258-289 | the state is `Delete(old)`; NK_ERR iff the key is absent; otherwise both counts of the removed entry drop, and each payload is cleared iff a decrement brings its count to 0 |
| Dict.Dict.ReleaseEntry | dict.go:277 | freeEntry drops the key's and the value's counts, and clears each payload whose count reaches 0. It leaves the table alone |
| Dict.Dict.RehashThenUnlink | dict.go:262-288 | one rehash step, then the unlink; it returns the entry DictFind would have returned |
| Dict.Dict.UnlinkFrom | dict.go:265-287 | the two-table unlink is `DeleteFrom` |
| Dict.Dict.UnlinkAt | dict.go:267-283 | the unlink from table i is `DeleteAt` |
| Dict.Dict.DictGetRandomKey | dict.go:299-340 | nil iff there is no table; otherwise one rehash step and an entry of the content |
| Dict.Dict.DictGetRandomKeyChecked | dict.go:299-324 | corrected: nil iff there is no table or no entry; otherwise an entry of the content |
| Dict.Dict.PickEntry | dict.go:309-339 | the draw returns an entry of the dictionary |
| Dict.Dict.BucketAt | dict.go:312-317 | position h over both tables picks bucket h of their concatenation |
| Dict.Dict.DictGet | dict.go:291-297 | the value of the entry DictFind returns, or nil |
| Dict.FreeEntry | dict.go:253-256 | the key's and the value's counts drop by one each, or by two when they are the same object; a payload is cleared iff one of the decrements brings its count to 0 |
| Dict.DictNextPower | dict.go:101-108 | the loop returns `NextPower(size)`: the least power of two, at least 8, that reaches size |

## Left out

- Dict.Dict.DictSet: requires that the key is already stored or that no growth is due. Otherwise the source's DictFind returns nil and `entry.Val` is dereferenced (dict.go:247-248). That case is a finding, stated by `SetAfterRefusedGrowth`.
- Dict.Dict.DictSet: requires a non-nil value in a stored entry. `entry.Val.DecrRefCount()` would dereference nil (dict.go:248).
- Dict.Dict.DictDelete: requires a non-nil value in the entry being deleted. freeEntry calls `e.Val.DecrRefCount()` (dict.go:255), which panics on an entry added by DictAddRaw alone.
- Dict.Dict.DictGetRandomKey: requires a non-empty dictionary once a table exists. On an empty one the draw never ends (dict.go:311-323). That case is a finding, stated by `EmptyDrawsNothing` and handled by `DictGetRandomKeyChecked`.
- Dict.Dict.DictExpand: requires size <= 2^62. Above that, dictNextPower never returns (dict.go:102). That case is a finding, stated by `NextPowerNeverReturns`.
- Dict.DictNextPower: requires size <= 2^62, for the same reason.
- DictSpec.NextPower: requires size <= 2^62, for the same reason.
- List.List.ListDelKey: requires that some value matches. With no match, `p` is nil and `p.next` or `p.prev` is dereferenced (list.go:78-96).
- List.List.ListDelNode: requires, for a non-nil node, that its value matches some value, for the same reason.
- Obj.RedisObj.StrVal: requires `PayloadReadable`. On a string-typed object whose payload is not a Go string, the `Val_.(string)` assertion panics (obj.go:32).
- Obj.RedisObj.IntVal: requires `PayloadReadable`, for the same reason (obj.go:24).
- Net.AddrInet4ToBytes: requires `FieldsReachable`. With fewer than four fields that all parse, `as[i]` is out of range and the source panics (net.go:38-39). `ShortFieldsOverrun` states when this happens.
- Chains are sequences of entries with no `next` pointers. An entry's position in its bucket's sequence is its place in the chain, and splicing builds a new sequence.
- Timers are a sequence of values updated by id. They are not aliased `*AeTimeEvent` nodes: `te.when = …` on a collected pointer becomes "the timer with this id gets the new `when`". Ids are unique, so these agree.
- `h & mask` is written as `h % size`. The sizes are powers of two, so the two agree for every int64 `h`, including negative ones.
- The hash and equality functions are pure functions of the key object. `Sound` assumes equality is an equivalence consistent with the hash. Callbacks with side effects are not modelled.
- The success of `epoll_ctl` is the `ctlOk` parameter. The epoll file descriptor, `epoll_wait` and its 128-entry buffer are outside the model. The readiness reports are the `ready` parameter, of any length.
- Clock readings (`GetMsTime`, `time.Now`) are the parameters `nowA`/`nowB`/`nowC` of AeWait, `now` of AeCreateTimeEvent, and `nows` of AeProcessEvents (one reading per due timer).
- `rand.Int63n` is a nondeterministic choice (`:|`), and the draw is proved only to return an entry of the dictionary. Nothing is claimed about the distribution.
- Timer and file callbacks are recorded as a trace of `Callback` values. They are not run, so a callback that changes the loop is not modelled.
- Ae.TeType: holds only Normal and Once. The source's mask is an int, and a timer with any other mask is neither rescheduled nor removed (ae.go:189-198). That case is not modelled.
- Logging is left out (ae.go:108, 119, 142, 148, 201, 230, 233).
- AeCreateEventLoop's error return is left out, along with `EpollCreate1`.
- `AeMain` (ae.go:265-271) is left out. It is the unbounded loop of AeWait and AeProcessEvents, and it never ends unless a callback sets `stop`.
- `TcpServer`, `Accept`, `Connect` and `GetMsTime` (net.go, ae.go:51-53) are left out. They are socket and clock system calls.
- A file event set to nil in the map (ae.go:147) is modelled as the key being removed. A Go map lookup of either gives nil.
- `when = now + duration` and the other timer arithmetic are unbounded integers. The model does not wrap int64 milliseconds.
- `Val_ interface{}` is modelled as `RedisVal`: nil, a string, or an opaque other value.

## Findings

| source | as written | input that shows it | evidently intended | confidence | as-written member | corrected member |
|---|---|---|---|---|---|---|
| dict.go:142-143 | dictExpandIfNeeded asks DictExpand for `size * 2`, but DictExpand refuses whenever `used > size` (dict.go:112), and growth is only due when `used >= 3 * size`. So every growth is refused, DictKeyIndex returns -1, and the add fails with EX_ERR. | 24 keys added to a fresh dictionary (8 buckets), then a 25th new key | the add succeeds and a rehash into 16 buckets starts with `rehashIdx` 0 (dict_test.go:83-90) | high; not executed | DictSpec.GrowthBlocksAdd | DictSpec.FixedGrowthStartsRehash |
| ae.go:55-61 | getFeKey maps a readable event to `fd` and a writable one to `-fd`. For fd 0 both are key 0, so a readable registration hides the writable one, and one report selects it twice. | AeCreateFileEvent(0, READABLE), then AeCreateFileEvent(0, WRITABLE) | the two kinds keep separate entries on every descriptor | high; not executed | Ae.FdZeroCollision | Ae.FeKeyFixedInjective |
| dict.go:101-108 | dictNextPower doubles an int64 from 8. Past 2^62 it wraps to -2^63 and then stays 0, which is always `< MaxInt64` and `< size`. | DictExpand(2^62 + 1) | the loop gives up and returns -1 | high; not executed | DictSpec.NextPowerNeverReturns | DictSpec.NextPowerCheckedSpec |
| dict.go:311-323 | DictGetRandomKey redraws until it hits a non-empty bucket, but a dictionary whose tables exist and hold no entry has none. | DictAdd of one key, DictDelete of it, then DictGetRandomKey | nil, as for a dictionary without tables (dict.go:300-302) | high; not executed | DictSpec.EmptyDrawsNothing | Dict.Dict.DictGetRandomKeyChecked |
| dict.go:244-248 | DictSet treats every DictAdd failure as "key exists". When the failure is the refused growth, DictFind returns nil and `entry.Val` is dereferenced. | 24 keys in 8 buckets, then DictSet of a 25th new key | the new key is added | high; not executed | DictSpec.SetAfterRefusedGrowth | DictSpec.FixedGrowthStartsRehash |
| dict.go:248-250 | DictSet drops the old value's reference before taking the new one. When both are the same object with count 1, the count reaches 0 and DecrRefCount clears `Val_` (obj.go:57-59), and only then does IncrRefCount restore the count. | DictSet(k, v); the caller's own DecrRefCount on v; DictSet(k, v) again | the stored value keeps its payload | medium; not executed | Dict.Dict.ReplaceVal | Dict.Dict.ReplaceValFixed |
