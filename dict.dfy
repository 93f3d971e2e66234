/**
 * The incremental-rehash dictionary of dict.go as mutable objects: a `Dict`
 * holding up to two `DictHashTable`s and the rehash cursor. A bucket array
 * holds each chain as the sequence of its entries from the head; splicing an
 * entry in or out of a chain becomes a new sequence stored in the bucket.
 * Every method that changes or searches the tables is proved, through the
 * abstraction `Abs()`, equal to the function of the same operation in
 * `DictSpec`. The random draw is proved only to return an entry of the
 * dictionary, and the reference-count methods (`StoreVal`, `ReplaceVal`,
 * `ReleaseEntry`, `FreeEntry`) leave `Abs()` unchanged or do not touch the
 * tables at all.
 */
module Dict {
  import opened Optional
  import opened Obj
  import opened DictSpec

  class DictHashTable {
    const table: array<seq<DictEntry>>
    const size: int
    const mask: int
    var used: int

    /** A table of n empty buckets; the source builds it inline in DictExpand. */
    constructor (n: int)
      requires n >= 0
      ensures size == n && mask == n - 1 && used == 0
      ensures table.Length == n && fresh(table)
      ensures forall b | 0 <= b < n :: table[b] == []
    {
      table := new seq<DictEntry>[n](_ => []);
      size := n;
      mask := n - 1;
      used := 0;
    }

    ghost function Abs(): Table
      reads this, table
    {
      Table(table[..], used)
    }

    /** The splice of DictAddRaw: e becomes the head of bucket idx, and `used` counts it. */
    method PushFront(idx: int, e: DictEntry)
      requires 0 <= idx < table.Length
      modifies this, table
      ensures table[..] == old(table[..])[idx := [e] + old(table[idx])]
      ensures used == old(used) + 1
    {
      table[idx] := [e] + table[idx];
      used := used + 1;
    }

    /**
     * The search and unlink of DictDelete in one table: the first entry of
     * the key's bucket whose key matches leaves its chain and `used` drops
     * by one; nil and no change when there is none.
     */
    method UnlinkKey(key: RedisObj, f: DictFunc) returns (he: DictEntry?)
      requires table.Length == size && mask == size - 1 && TableOk(Abs(), f)
      modifies this, table
      ensures Abs() == DeleteIn(old(Abs()), key, f).0
      ensures he == OrNull(DeleteIn(old(Abs()), key, f).1)
    {
      PowerAtLeast8(size);
      var idx := Slot(f.hashFunc(key), mask + 1);
      var c := table[idx];
      var j := ChainPosition(c, key, f);
      if j < |c| {
        he := c[j];
        table[idx] := c[..j] + c[j + 1..];
        used := used - 1;
      } else {
        he := null;
      }
    }
  }

  /** The walk along a chain: the position of the first entry whose key matches, or the chain's length. */
  method ChainPosition(chain: seq<DictEntry>, key: RedisObj, f: DictFunc) returns (j: int)
    ensures j == ChainIndex(chain, key, f)
  {
    j := 0;
    while j < |chain|
      invariant 0 <= j <= ChainIndex(chain, key, f)
    {
      if f.equalFunc(chain[j].key, key) {
        return;
      }
      j := j + 1;
    }
  }

  /** The entry a search produced, or nil. */
  function OrNull(r: Option<DictEntry>): (e: DictEntry?)
    ensures r.Some? ==> e == r.value
    ensures r.None? ==> e == null
  {
    if r.Some? then r.value else null
  }

  class Dict {
    const dictFunc: DictFunc
    var ht0: DictHashTable?
    var ht1: DictHashTable?
    var rehashIdx: int

    /** Each table has as many buckets as its size and mask size - 1; the two tables are distinct. */
    ghost predicate Shape()
      reads this
    {
      && (ht0 != null ==> ht0.table.Length == ht0.size && ht0.mask == ht0.size - 1)
      && (ht1 != null ==> ht1.table.Length == ht1.size && ht1.mask == ht1.size - 1)
      && (ht0 != null && ht1 != null ==> ht0 != ht1 && ht0.table != ht1.table)
    }

    /** The objects the abstract state is read from: the dictionary, its tables and their bucket arrays. */
    ghost function Footprint(): (fp: set<object>)
      reads this
      ensures this in fp
    {
      {this}
      + (if ht0 != null then {ht0, ht0.table} else {})
      + (if ht1 != null then {ht1, ht1.table} else {})
    }

    /**
     * Each table is one of the two the dictionary had in the earlier state,
     * or was allocated since, together with its bucket array.
     */
    twostate predicate TablesFrom(t0: DictHashTable?, t1: DictHashTable?)
      reads this
    {
      && (ht0 == null || ht0 == t0 || ht0 == t1 || (fresh(ht0) && fresh(ht0.table)))
      && (ht1 == null || ht1 == t0 || ht1 == t1 || (fresh(ht1) && fresh(ht1.table)))
    }

    /** Under TablesFrom, every object of the footprint was in the earlier footprint or is new. */
    twostate lemma FootprintFrom()
      requires TablesFrom(old(ht0), old(ht1))
      ensures forall o :: o in Footprint() ==> o in old(Footprint()) || fresh(o)
    {
    }

    /** Entries and objects are never part of the footprint. */
    lemma Outside(e: DictEntry?, o: RedisObj?)
      ensures e !in Footprint() && o !in Footprint()
    {
    }

    /** The entry stored for a key, as an allocated object the caller can name. */
    lemma StoredEntry(key: RedisObj) returns (e: DictEntry)
      requires Valid() && EntryFor(key).Some?
      ensures EntryFor(key) == Some(e)
    {
      e := EntryFor(key).value;
    }

    /** A step that leaves the footprint untouched keeps the abstract state. */
    twostate lemma AbsUnchanged()
      requires old(Valid()) && unchanged(old(Footprint()))
      ensures Valid() && Footprint() == old(Footprint()) && Abs() == old(Abs())
    {
    }

    ghost function Abs(): State
      reads this, Footprint()
      requires Shape()
    {
      State(if ht0 == null then None else Some(ht0.Abs()),
            if ht1 == null then None else Some(ht1.Abs()),
            rehashIdx)
    }

    ghost predicate Valid()
      reads this, Footprint()
    {
      Shape() && Inv(Abs(), dictFunc)
    }

    /** The entries of the dictionary, which DictSet and DictDelete may touch. */
    ghost function Entries(): set<DictEntry>
      reads this, Footprint()
      requires Shape()
    {
      set e | e in Content(Abs())
    }

    /** The entry DictFind would return for k before any rehash step. */
    ghost function EntryFor(k: RedisObj): Option<DictEntry>
      reads this, Footprint()
      requires Valid()
    {
      if ht0 == null then None else Lookup(Abs(), k, dictFunc)
    }

    /** DictCreate: no tables, not rehashing. */
    constructor DictCreate(f: DictFunc)
      ensures Valid()
      ensures dictFunc == f && ht0 == null && ht1 == null
      ensures Abs() == State(None, None, -1) && Content(Abs()) == multiset{}
    {
      dictFunc := f;
      ht0 := null;
      ht1 := null;
      rehashIdx := -1;
    }

    /** Rehashing is in progress exactly when there is a second table. */
    function DictIsRehashing(): (r: bool)
      reads this, Footprint()
      requires Shape() && Wf(Abs(), dictFunc)
      ensures r <==> ht1 != null
      ensures r <==> Rehashing(Abs())
    {
      rehashIdx != -1
    }

    /**
     * One pass of the DictRehash loop after the swap test: the cursor skips
     * empty buckets, then the chain it reaches moves to the second table.
     */
    method MoveNextBucket()
      requires Shape() && Wf(Abs(), dictFunc) && ht1 != null && ht0.used != 0
      modifies this, ht0, ht1, ht0.table, ht1.table
      ensures Shape() && ht0 == old(ht0) && ht1 == old(ht1)
      ensures Abs() == Step(old(Abs()), dictFunc)
    {
      ghost var s := Abs();
      NonEmptyAhead(s, dictFunc);
      SkipEmptyBuckets();
      assert rehashIdx == NextNonEmpty(s.t0.value.buckets, s.rehashIdx);
      assert Step(s, dictFunc) == StepAt(Abs(), rehashIdx, dictFunc);
      MoveBucket();
    }

    /** The cursor loop of DictRehash: rehashIdx advances to the next non-empty bucket of the first table. */
    method SkipEmptyBuckets()
      requires Shape() && ht0 != null && 0 <= rehashIdx <= ht0.size
      requires exists k | rehashIdx <= k < ht0.size :: ht0.table[k] != []
      modifies this
      ensures Shape() && ht0 == old(ht0) && ht1 == old(ht1)
      ensures old(rehashIdx) <= rehashIdx < ht0.size && ht0.table[rehashIdx] != []
      ensures forall k | old(rehashIdx) <= k < rehashIdx :: ht0.table[k] == []
      ensures Abs() == old(Abs()).(rehashIdx := rehashIdx)
    {
      ghost var next := NextNonEmpty(ht0.table[..], rehashIdx);
      while ht0.table[rehashIdx] == []
        invariant ht0 == old(ht0) && ht1 == old(ht1)
        invariant old(rehashIdx) <= rehashIdx <= next
        invariant forall k | old(rehashIdx) <= k < rehashIdx :: ht0.table[k] == []
        decreases next - rehashIdx
      {
        rehashIdx := rehashIdx + 1;
      }
    }

    /**
     * The move loop of DictRehash: each entry of the chain at the cursor, from
     * the head, is pushed onto the head of its bucket in the second table and
     * counted over; then the first table's bucket is emptied and the cursor
     * passes it.
     */
    method MoveBucket()
      requires Shape() && ht0 != null && ht1 != null && 0 <= rehashIdx < ht0.size && ht1.size > 0
      modifies this, ht0, ht1, ht0.table, ht1.table
      ensures Shape() && ht0 == old(ht0) && ht1 == old(ht1)
      ensures rehashIdx == old(rehashIdx) + 1
      ensures ht0.table[..] == old(ht0.table[..])[old(rehashIdx) := []]
      ensures ht1.table[..] == MoveChain(old(ht1.table[..]), old(ht0.table[rehashIdx]), dictFunc)
      ensures ht0.used == old(ht0.used) - |old(ht0.table[rehashIdx])|
      ensures ht1.used == old(ht1.used) + |old(ht0.table[rehashIdx])|
      ensures Abs() == StepAt(old(Abs()), old(rehashIdx), dictFunc)
    {
      var chain := ht0.table[rehashIdx];
      var j := 0;
      while j < |chain|
        invariant 0 <= j <= |chain| && rehashIdx == old(rehashIdx)
        invariant ht0 == old(ht0) && ht1 == old(ht1)
        invariant ht0.table[..] == old(ht0.table[..])
        invariant ht1.table[..] == MoveChain(old(ht1.table[..]), chain[..j], dictFunc)
        invariant ht0.used == old(ht0.used) - j && ht1.used == old(ht1.used) + j
      {
        var e := chain[j];
        var h := Slot(dictFunc.hashFunc(e.key), ht1.mask + 1);
        ht1.table[h] := [e] + ht1.table[h];
        ht1.used := ht1.used + 1;
        ht0.used := ht0.used - 1;
        j := j + 1;
        assert chain[..j][..j - 1] == chain[..j - 1];
      }
      assert chain[..j] == chain;
      ht0.table[rehashIdx] := [];
      rehashIdx := rehashIdx + 1;
    }

    /**
     * One pass of the DictRehash loop: when the first table is empty the
     * second replaces it and rehashing ends; otherwise one bucket moves.
     * Where n passes from here reach target, the pass either ends there or
     * leaves n - 1 passes to go.
     */
    method RehashPass(ghost n: int, ghost target: State) returns (done: bool)
      requires Shape() && Wf(Abs(), dictFunc) && ht1 != null && n > 0
      requires RehashN(Abs(), dictFunc, n) == target
      modifies this, ht0, ht1, ht0.table, ht1.table
      ensures Shape() && Wf(Abs(), dictFunc)
      ensures done ==> Abs() == target
      ensures !done ==> RehashN(Abs(), dictFunc, n - 1) == target
      ensures done <==> ht1 == null
      ensures done ==> ht0 == old(ht1)
      ensures !done ==> ht0 == old(ht0) && ht1 == old(ht1)
    {
      StepAdvances(Abs(), dictFunc, n);
      if ht0.used == 0 {
        ht0 := ht1;
        ht1 := null;
        rehashIdx := -1;
        return true;
      }
      MoveNextBucket();
      return false;
    }

    /**
     * DictRehash(step): nothing unless rehashing; then up to step passes,
     * each either finishing (the second table replaces the emptied first) or
     * moving one bucket.
     */
    method DictRehash(step: int)
      requires Valid()
      modifies Footprint()
      ensures Valid() && TablesFrom(old(ht0), old(ht1))
      ensures Abs() == RehashN(old(Abs()), dictFunc, step)
    {
      if !DictIsRehashing() {
        return;
      }
      RehashKeeps(Abs(), dictFunc, step);
      RehashPasses(step);
    }

    /** The loop of DictRehash, entered while rehashing. */
    method RehashPasses(step: int)
      requires Shape() && Wf(Abs(), dictFunc) && ht1 != null
      modifies Footprint()
      ensures Shape() && TablesFrom(old(ht0), old(ht1))
      ensures Abs() == RehashN(old(Abs()), dictFunc, step)
    {
      ghost var target := RehashN(Abs(), dictFunc, step);
      var n := step;
      while n > 0
        invariant Shape() && ht0 == old(ht0) && ht1 == old(ht1) && ht1 != null
        invariant Wf(Abs(), dictFunc) && RehashN(Abs(), dictFunc, n) == target
        decreases n
      {
        var done := RehashPass(n, target);
        if done {
          return;
        }
        n := n - 1;
      }
    }

    /** DictRehashStep: one step of DictRehash. */
    method DictRehashStep()
      requires Valid()
      modifies Footprint()
      ensures Valid() && TablesFrom(old(ht0), old(ht1))
      ensures Abs() == RehashStep(old(Abs()), dictFunc)
    {
      DictRehash(DICT_DEFAULT_REHASH_STEP);
    }

    /**
     * DictExpand(size): refused while rehashing or when the first table holds
     * more than size entries; otherwise a new table of dictNextPower(size)
     * empty buckets becomes the first table or, beside an existing one, the
     * second, and rehashing starts at bucket 0.
     */
    method DictExpand(size: int) returns (err: Option<DictError>)
      requires Valid() && size <= POW62
      modifies this
      ensures Valid() && TablesFrom(old(ht0), old(ht1))
      ensures (Abs(), err) == Expand(old(Abs()), size, dictFunc)
    {
      ExpandKeeps(Abs(), size, dictFunc);
      var realSize := DictNextPower(size);
      if DictIsRehashing() || (ht0 != null && ht0.used > size) {
        return Some(EpErr);
      }
      InstallTable(realSize);
      return None;
    }

    /**
     * The last step of a successful DictExpand: a new table of n empty
     * buckets becomes the first table when there is none, and otherwise the
     * second, with rehashing starting at bucket 0.
     */
    method InstallTable(n: int)
      requires Shape() && !Rehashing(Abs()) && n >= 0
      modifies this
      ensures Shape() && TablesFrom(old(ht0), old(ht1))
      ensures Abs() == if old(ht0) == null then old(Abs()).(t0 := Some(EmptyTable(n)))
                       else State(old(Abs()).t0, Some(EmptyTable(n)), 0)
    {
      var t := new DictHashTable(n);
      assert t.Abs() == EmptyTable(n);
      if ht0 == null {
        ht0 := t;
        return;
      }
      ht1 := t;
      rehashIdx := 0;
    }

    /**
     * dictExpandIfNeeded: nothing while rehashing; a first table of
     * DICT_HT_INITIAL_SIZE buckets when there is none; DictExpand of the
     * int64 product size * DICT_HT_GROW_RATIO when growth is due.
     */
    method DictExpandIfNeeded() returns (err: Option<DictError>)
      requires Valid()
      modifies this
      ensures Valid() && TablesFrom(old(ht0), old(ht1))
      ensures (Abs(), err) == ExpandIfNeeded(old(Abs()), dictFunc)
    {
      if DictIsRehashing() {
        return None;
      }
      if ht0 == null {
        err := DictExpand(DICT_HT_INITIAL_SIZE);
        return;
      }
      PowerAtLeast8(ht0.size);
      if ht0.used > ht0.size && ht0.used / ht0.size > DICT_FORCE_RESIZE_RATIO {
        DoubleWraps(ht0.size);
        err := DictExpand(Wrap64(ht0.size * DICT_HT_GROW_RATIO));
        return;
      }
      return None;
    }

    /** The walk along a chain in DictKeyIndex and DictFind: the first entry whose key matches, or nil. */
    method SearchChain(chain: seq<DictEntry>, key: RedisObj) returns (he: DictEntry?)
      ensures he == OrNull(ChainFind(chain, key, dictFunc))
    {
      var j := ChainPosition(chain, key, dictFunc);
      he := if j < |chain| then chain[j] else null;
    }


    /**
     * DictKeyIndex: -1 when dictExpandIfNeeded fails or a searched table
     * already holds the key; otherwise the key's bucket in the table new
     * entries go to.
     */
    method DictKeyIndex(key: RedisObj) returns (idx: int)
      requires Valid()
      modifies this
      ensures Valid() && TablesFrom(old(ht0), old(ht1))
      ensures (Abs(), idx) == KeyIndex(old(Abs()), key, dictFunc)
    {
      ExpandIfNeededFails(Abs(), dictFunc);
      var err := DictExpandIfNeeded();
      if err.Some? {
        return -1;
      }
      idx := SearchFreeIndex(key);
    }

    /**
     * The search of DictKeyIndex once the tables exist: -1 when the key's
     * bucket of the first table or, while rehashing, of the second holds a
     * matching key; otherwise the key's bucket in the last table searched.
     */
    method SearchFreeIndex(key: RedisObj) returns (idx: int)
      requires Shape() && Wf(Abs(), dictFunc) && ht0 != null
      ensures idx == -1 <==> Lookup(Abs(), key, dictFunc).Some?
      ensures idx != -1 ==> idx == Slot(dictFunc.hashFunc(key), |Target(Abs()).buckets|)
    {
      ghost var s1 := Abs();
      LookupByBuckets(s1, key, dictFunc);
      PowerAtLeast8(ht0.size);
      if ht1 != null {
        PowerAtLeast8(ht1.size);
      }
      var h := dictFunc.hashFunc(key);
      idx := 0;
      var i := 0;
      while i <= 1
        invariant 0 <= i <= 2
        invariant i >= 1 ==> ht1 != null && ChainFind(Bucket(s1.t0.value, h), key, dictFunc).None?
        invariant i == 2 ==> ht1 != null && ChainFind(Bucket(s1.t1.value, h), key, dictFunc).None? && idx == Slot(h, ht1.size)
      {
        var ht := if i == 0 then ht0 else ht1;
        idx := Slot(h, ht.mask + 1);
        var he := SearchChain(ht.table[idx], key);
        assert ht.table[idx] == Bucket(if i == 0 then s1.t0.value else s1.t1.value, h);
        if he != null {
          return -1;
        }
        if !DictIsRehashing() {
          break;
        }
        i := i + 1;
      }
    }

    /**
     * DictAddRaw: one rehash step while rehashing, then DictKeyIndex; on
     * success a new entry for the key, with no value yet, becomes the head of
     * that bucket of the table new entries go to, and the key gains a
     * reference.
     */
    method DictAddRaw(key: RedisObj) returns (entry: DictEntry?)
      requires Valid() && Sound(dictFunc, Keys(Content(Abs())) + {key})
      modifies Footprint(), key
      ensures Valid() && TablesFrom(old(ht0), old(ht1))
      ensures entry != null ==>
        && fresh(entry) && entry.key == key && entry.val == null
        && AddRaw(old(Abs()), entry, dictFunc) == (Abs(), true)
        && key.refCount == old(key.refCount) + 1
      ensures entry == null ==>
        && key.refCount == old(key.refCount)
        && KeyIndex(RehashStep(old(Abs()), dictFunc), key, dictFunc) == (Abs(), -1)
      ensures entry == null <==> old(HasKey(Content(Abs()), key, dictFunc)) || GrowthDue(RehashStep(old(Abs()), dictFunc))
      ensures entry != null ==> Content(Abs()) == old(Content(Abs())) + multiset{entry} && EntryFor(key) == Some(entry)
      ensures entry == null ==> Content(Abs()) == old(Content(Abs()))
      ensures key.val_ == old(key.val_)
    {
      ghost var s := Abs();
      assert key !in Footprint();
      var idx := RehashThenKeyIndex(key);
      if idx == -1 {
        return null;
      }
      label AfterIndex:
      FootprintFrom();
      entry := InsertEntry(idx, key);
      AddRawInserts(s, old@AfterIndex(Abs()), entry, idx, dictFunc);
    }

    /** The lookup half of DictAddRaw: the rehash step, then DictKeyIndex. */
    method RehashThenKeyIndex(key: RedisObj) returns (idx: int)
      requires Valid() && Sound(dictFunc, Keys(Content(Abs())) + {key})
      modifies Footprint()
      ensures Valid() && TablesFrom(old(ht0), old(ht1))
      ensures (Abs(), idx) == KeyIndex(RehashStep(old(Abs()), dictFunc), key, dictFunc)
      ensures idx == -1 <==> old(HasKey(Content(Abs()), key, dictFunc)) || GrowthDue(RehashStep(old(Abs()), dictFunc))
      ensures Content(Abs()) == old(Content(Abs()))
    {
      ghost var s := Abs();
      if DictIsRehashing() {
        DictRehashStep();
      }
      idx := DictKeyIndex(key);
      KeyIndexSpec(RehashStep(s, dictFunc), key, dictFunc);
    }

    /**
     * The splice of DictAddRaw: a new entry for key, which gains a reference,
     * becomes the head of bucket idx of the table new entries go to.
     */
    method InsertEntry(idx: int, key: RedisObj) returns (entry: DictEntry)
      requires Shape() && Wf(Abs(), dictFunc) && ht0 != null && 0 <= idx < |Target(Abs()).buckets|
      modifies Footprint(), key
      ensures Shape() && ht0 == old(ht0) && ht1 == old(ht1) && Footprint() == old(Footprint())
      ensures fresh(entry) && entry.key == key && entry.val == null
      ensures Abs() == Insert(old(Abs()), idx, entry)
      ensures key.refCount == old(key.refCount) + 1 && key.val_ == old(key.val_)
    {
      var ht := if DictIsRehashing() then ht1 else ht0;
      entry := new DictEntry(key);
      entry.key.IncrRefCount();
      ht.PushFront(idx, entry);
    }

    /**
     * DictAdd: EX_ERR when DictAddRaw refuses the key; otherwise the new
     * entry holds val, and the key and the value each gain a reference.
     */
    method DictAdd(key: RedisObj, val: RedisObj) returns (err: Option<DictError>)
      requires Valid() && Sound(dictFunc, Keys(Content(Abs())) + {key})
      modifies Footprint(), key, val
      ensures Valid() && TablesFrom(old(ht0), old(ht1))
      ensures err.None? <==> !old(HasKey(Content(Abs()), key, dictFunc)) && !GrowthDue(RehashStep(old(Abs()), dictFunc))
      ensures err.Some? ==>
        && err == Some(ExErr) && Content(Abs()) == old(Content(Abs()))
        && key.refCount == old(key.refCount) && val.refCount == old(val.refCount) && val.val_ == old(val.val_)
      ensures err.None? ==>
        && EntryFor(key).Some? && fresh(EntryFor(key).value) && EntryFor(key).value.val == val
        && Content(Abs()) == old(Content(Abs())) + multiset{EntryFor(key).value}
      ensures err.None? ==> key.refCount == old(key.refCount) + (if key == val then 2 else 1)
      ensures err.None? ==> val.refCount == old(val.refCount) + (if key == val then 2 else 1)
      ensures key.val_ == old(key.val_) && val.val_ == old(val.val_)
    {
      ghost var s := Abs();
      Outside(null, key);
      Outside(null, val);
      var entry := DictAddRaw(key);
      if entry == null {
        return Some(ExErr);
      }
      StoreVal(entry, val);
      return None;
    }

    /** The value store shared by DictAdd and DictSet: the entry holds val, which gains a reference. */
    method StoreVal(entry: DictEntry, val: RedisObj)
      requires Valid()
      modifies entry, val
      ensures Valid() && Abs() == old(Abs()) && Footprint() == old(Footprint())
      ensures EntryFor(entry.key) == old(EntryFor(entry.key)) && TablesFrom(old(ht0), old(ht1))
      ensures entry.val == val && val.refCount == old(val.refCount) + 1 && val.val_ == old(val.val_)
      ensures entry.key != val ==> entry.key.refCount == old(entry.key.refCount)
      ensures entry.key.val_ == old(entry.key.val_)
    {
      Outside(entry, val);
      label BeforeValue:
      entry.val := val;
      val.IncrRefCount();
      AbsUnchanged@BeforeValue();
    }

    /**
     * DictSet: DictAdd for a new key; for a stored key DictAdd fails and the
     * entry DictFind returns drops a reference to its old value and holds
     * val, which gains one. When growth is due and the key is new, DictAdd
     * fails, DictFind returns nil and the source dereferences it; callers
     * must exclude that case.
     */
    method DictSet(key: RedisObj, val: RedisObj)
      requires Valid() && Sound(dictFunc, Keys(Content(Abs())) + {key})
      requires HasKey(Content(Abs()), key, dictFunc) || !GrowthDue(RehashStep(Abs(), dictFunc))
      requires EntryFor(key).Some? ==> EntryFor(key).value.val != null
      modifies Footprint(), key, val
      modifies if EntryFor(key).Some? then {EntryFor(key).value as object, EntryFor(key).value.val as object} else {}
      ensures Valid() && TablesFrom(old(ht0), old(ht1))
      ensures EntryFor(key).Some? && EntryFor(key).value.val == val
      ensures old(EntryFor(key)).None? ==>
        && fresh(EntryFor(key).value)
        && Content(Abs()) == old(Content(Abs())) + multiset{EntryFor(key).value}
        && key.refCount == old(key.refCount) + (if key == val then 2 else 1)
        && val.refCount == old(val.refCount) + (if key == val then 2 else 1)
        && key.val_ == old(key.val_) && val.val_ == old(val.val_)
      ensures old(EntryFor(key)).Some? ==>
        var e := old(EntryFor(key).value);
        && EntryFor(key) == Some(e) && Content(Abs()) == old(Content(Abs()))
        && val.refCount == old(val.refCount) + (if old(e.val) == val then 0 else 1)
        && (old(e.val) != val ==> old(e.val).refCount == old(e.val.refCount) - 1)
        && key.refCount == old(key.refCount) + (if key == val then 1 else 0) - (if key == old(e.val) then 1 else 0)
        && val.val_ == (if old(e.val) == val && old(val.refCount) == 1 then Nil else old(val.val_))
        && (old(e.val) != val ==> old(e.val).val_ == PayloadAfterDecrs(old(e.val.val_), old(e.val.refCount), 1))
        && (key != old(e.val) ==> key.val_ == old(key.val_))
    {
      ghost var e: DictEntry? := null;
      if EntryFor(key).Some? {
        e := StoredEntry(key);
        Outside(e, e.val);
      }
      Outside(null, val);
      var err := TryAdd(key, val, e);
      if err.None? {
        return;
      }
      FootprintFrom();
      UpdateStored(key, val, e);
    }

    /**
     * The DictAdd call of DictSet: it succeeds exactly when the key is new,
     * and a refusal leaves the stored entry, its value and every count as
     * they were.
     */
    method TryAdd(key: RedisObj, val: RedisObj, ghost e: DictEntry?) returns (err: Option<DictError>)
      requires Valid() && Sound(dictFunc, Keys(Content(Abs())) + {key})
      requires HasKey(Content(Abs()), key, dictFunc) || !GrowthDue(RehashStep(Abs(), dictFunc))
      requires EntryFor(key) == (if e == null then None else Some(e))
      requires e != null ==> e.val != null
      modifies Footprint(), key, val
      ensures Valid() && TablesFrom(old(ht0), old(ht1))
      ensures err.None? <==> e == null
      ensures err.None? ==>
        && EntryFor(key).Some? && fresh(EntryFor(key).value) && EntryFor(key).value.val == val
        && Content(Abs()) == old(Content(Abs())) + multiset{EntryFor(key).value}
        && key.refCount == old(key.refCount) + (if key == val then 2 else 1)
        && val.refCount == old(val.refCount) + (if key == val then 2 else 1)
      ensures key.val_ == old(key.val_) && val.val_ == old(val.val_)
      ensures err.Some? ==>
        && EntryFor(key) == Some(e) && Content(Abs()) == old(Content(Abs()))
        && Sound(dictFunc, Keys(Content(Abs())) + {key})
        && e.val == old(e.val) && e.val.refCount == old(e.val.refCount) && val.refCount == old(val.refCount)
        && key.refCount == old(key.refCount) && val.val_ == old(val.val_)
    {
      ghost var s := Abs();
      assert e != null <==> HasKey(Content(s), key, dictFunc) by {
        if ht0 != null {
          LookupComplete(s, key, dictFunc);
        }
      }
      if e != null {
        Outside(e, e.val);
      }
      Outside(null, val);
      err := DictAdd(key, val);
      if err.Some? {
        assert EntryFor(key) == Some(e) && Keys(Content(Abs())) == Keys(Content(s)) by {
          LookupByContent(s, Abs(), key, dictFunc);
        }
      }
    }

    /**
     * The second half of DictSet, for a stored key: DictFind, then the value
     * swap on the entry it returns.
     */
    method UpdateStored(key: RedisObj, val: RedisObj, ghost e: DictEntry)
      requires Valid() && Sound(dictFunc, Keys(Content(Abs())) + {key})
      requires EntryFor(key) == Some(e) && e.val != null
      modifies Footprint(), e, e.val, val
      ensures Valid() && TablesFrom(old(ht0), old(ht1))
      ensures EntryFor(key) == Some(e) && Content(Abs()) == old(Content(Abs()))
      ensures e.val == val
      ensures val.refCount == old(val.refCount) + (if old(e.val) == val then 0 else 1)
      ensures old(e.val) != val ==> old(e.val).refCount == old(e.val.refCount) - 1
      ensures key.refCount == old(key.refCount) + (if key == val then 1 else 0) - (if key == old(e.val) then 1 else 0)
      ensures val.val_ == if old(e.val) == val && old(val.refCount) == 1 then Nil else old(val.val_)
      ensures old(e.val) != val ==> old(e.val).val_ == PayloadAfterDecrs(old(e.val.val_), old(e.val.refCount), 1)
      ensures key != old(e.val) ==> key.val_ == old(key.val_)
    {
      ghost var s := Abs();
      Outside(e, e.val);
      Outside(null, val);
      Outside(null, key);
      var entry := DictFind(key);
      assert entry == e && EntryFor(key) == Some(e) by {
        FindSpec(s, key, dictFunc);
        LookupByContent(s, Abs(), key, dictFunc);
      }
      FootprintFrom();
      ReplaceVal(entry, val, key);
    }

    /** The value swap of DictSet: the old value drops a reference, the entry holds val, which gains one. */
    method ReplaceVal(entry: DictEntry, val: RedisObj, ghost key: RedisObj)
      requires Valid() && entry.val != null
      modifies entry, entry.val, val
      ensures Valid() && Abs() == old(Abs()) && Footprint() == old(Footprint()) && entry.val == val
      ensures EntryFor(key) == old(EntryFor(key)) && TablesFrom(old(ht0), old(ht1))
      ensures val.refCount == old(val.refCount) + (if old(entry.val) == val then 0 else 1)
      ensures old(entry.val) != val ==> old(entry.val).refCount == old(entry.val.refCount) - 1
      ensures key.refCount == old(key.refCount) + (if key == val then 1 else 0) - (if key == old(entry.val) then 1 else 0)
      ensures val.val_ == if old(entry.val) == val && old(val.refCount) == 1 then Nil else old(val.val_)
      ensures old(entry.val) != val ==> old(entry.val).val_ == PayloadAfterDecrs(old(entry.val.val_), old(entry.val.refCount), 1)
      ensures key != old(entry.val) ==> key.val_ == old(key.val_)
    {
      Outside(entry, val);
      Outside(null, entry.val);
      label BeforeValue:
      entry.val.DecrRefCount();
      entry.val := val;
      val.IncrRefCount();
      AbsUnchanged@BeforeValue();
    }

    /**
     * The value swap of DictSet as intended: the new value's reference is
     * taken before the old one is dropped, so that storing the value already
     * stored keeps its payload at every positive count.
     */
    method ReplaceValFixed(entry: DictEntry, val: RedisObj, ghost key: RedisObj)
      requires Valid() && entry.val != null
      modifies entry, entry.val, val
      ensures Valid() && Abs() == old(Abs()) && Footprint() == old(Footprint()) && entry.val == val
      ensures EntryFor(key) == old(EntryFor(key)) && TablesFrom(old(ht0), old(ht1))
      ensures val.refCount == old(val.refCount) + (if old(entry.val) == val then 0 else 1)
      ensures old(entry.val) != val ==> old(entry.val).refCount == old(entry.val.refCount) - 1
      ensures key.refCount == old(key.refCount) + (if key == val then 1 else 0) - (if key == old(entry.val) then 1 else 0)
      ensures val.val_ == if old(entry.val) == val && old(val.refCount) == 0 then Nil else old(val.val_)
      ensures old(entry.val) != val ==> old(entry.val).val_ == PayloadAfterDecrs(old(entry.val.val_), old(entry.val.refCount), 1)
      ensures key != old(entry.val) ==> key.val_ == old(key.val_)
    {
      Outside(entry, val);
      Outside(null, entry.val);
      label BeforeValue:
      val.IncrRefCount();
      entry.val.DecrRefCount();
      entry.val := val;
      AbsUnchanged@BeforeValue();
    }

    /**
     * DictFind: nil with no table; otherwise one rehash step while rehashing,
     * then the key's bucket in the first table and, while rehashing, in the
     * second.
     */
    method DictFind(key: RedisObj) returns (he: DictEntry?)
      requires Valid()
      modifies Footprint()
      ensures Valid() && TablesFrom(old(ht0), old(ht1))
      ensures Abs() == Find(old(Abs()), key, dictFunc).0
      ensures he == OrNull(Find(old(Abs()), key, dictFunc).1)
    {
      if ht0 == null {
        return null;
      }
      if DictIsRehashing() {
        DictRehashStep();
      }
      he := SearchTables(key);
    }

    /**
     * The search of DictFind once the tables exist: the key's bucket in the
     * first table and, while rehashing, in the second.
     */
    method SearchTables(key: RedisObj) returns (he: DictEntry?)
      requires Shape() && Wf(Abs(), dictFunc) && ht0 != null
      ensures he == OrNull(Lookup(Abs(), key, dictFunc))
    {
      ghost var s1 := Abs();
      PowerAtLeast8(ht0.size);
      if ht1 != null {
        PowerAtLeast8(ht1.size);
      }
      var h := dictFunc.hashFunc(key);
      var i := 0;
      while i <= 1
        invariant 0 <= i <= 2
        invariant i >= 1 ==> ht1 != null && ChainFind(Bucket(s1.t0.value, h), key, dictFunc).None?
        invariant i == 2 ==> ht1 != null && ChainFind(Bucket(s1.t1.value, h), key, dictFunc).None?
      {
        var ht := if i == 0 then ht0 else ht1;
        var idx := Slot(h, ht.mask + 1);
        he := SearchChain(ht.table[idx], key);
        if he != null {
          return;
        }
        if !DictIsRehashing() {
          break;
        }
        i := i + 1;
      }
      return null;
    }

    /**
     * DictDelete: NK_ERR with no table; otherwise one rehash step while
     * rehashing, then the first entry whose key matches in the key's bucket
     * of the first table or, while rehashing, of the second is unlinked and
     * freeEntry drops a reference from its key and from its value; NK_ERR
     * when there is none. freeEntry dereferences the value, so a stored
     * entry with no value yet is excluded.
     */
    method DictDelete(key: RedisObj) returns (err: Option<DictError>)
      requires Valid() && Sound(dictFunc, Keys(Content(Abs())) + {key})
      requires EntryFor(key).Some? ==> EntryFor(key).value.val != null
      modifies Footprint()
      modifies if EntryFor(key).Some? then {EntryFor(key).value.key as object, EntryFor(key).value.val as object} else {}
      ensures Valid() && TablesFrom(old(ht0), old(ht1))
      ensures Abs() == Delete(old(Abs()), key, dictFunc).0
      ensures err.None? <==> old(EntryFor(key)).Some?
      ensures err.Some? ==> err.value == NkErr
      ensures old(EntryFor(key)).Some? ==>
        var e := old(EntryFor(key).value);
        var n := if e.key == old(e.val) then 2 else 1;
        && e.key.refCount == old(e.key.refCount) - n
        && old(e.val).refCount == old(e.val.refCount) - n
        && e.key.val_ == PayloadAfterDecrs(old(e.key.val_), old(e.key.refCount), n)
        && old(e.val).val_ == PayloadAfterDecrs(old(e.val.val_), old(e.val.refCount), n)
    {
      ghost var e: DictEntry? := null;
      if EntryFor(key).Some? {
        e := StoredEntry(key);
        Outside(e, e.key);
        Outside(null, e.val);
      }
      var he := RehashThenUnlink(key);
      if he == null {
        return Some(NkErr);
      }
      ReleaseEntry(he);
      return None;
    }

    /** The freeEntry call of DictDelete, which touches no part of the dictionary. */
    method ReleaseEntry(entry: DictEntry)
      requires Valid() && entry.val != null
      modifies entry.key, entry.val
      ensures Valid() && Abs() == old(Abs())
      ensures entry.key.refCount == old(entry.key.refCount) - (if entry.key == entry.val then 2 else 1)
      ensures entry.val.refCount == old(entry.val.refCount) - (if entry.key == entry.val then 2 else 1)
      ensures var n := if entry.key == entry.val then 2 else 1;
        && entry.key.val_ == PayloadAfterDecrs(old(entry.key.val_), old(entry.key.refCount), n)
        && entry.val.val_ == PayloadAfterDecrs(old(entry.val.val_), old(entry.val.refCount), n)
    {
      Outside(entry, entry.key);
      Outside(null, entry.val);
      label BeforeFree:
      FreeEntry(entry);
      AbsUnchanged@BeforeFree();
    }

    /** The body of DictDelete up to freeEntry: nil with no table, else the rehash step, then the search and unlink. */
    method RehashThenUnlink(key: RedisObj) returns (he: DictEntry?)
      requires Valid() && Sound(dictFunc, Keys(Content(Abs())) + {key})
      modifies Footprint()
      ensures Valid() && TablesFrom(old(ht0), old(ht1))
      ensures Abs() == Delete(old(Abs()), key, dictFunc).0
      ensures he == OrNull(Delete(old(Abs()), key, dictFunc).1)
      ensures he == OrNull(old(EntryFor(key)))
    {
      if ht0 == null {
        return null;
      }
      ghost var s := Abs();
      DeleteTakesFound(s, key, dictFunc);
      if DictIsRehashing() {
        DictRehashStep();
      }
      FootprintFrom();
      he := UnlinkFrom(key);
      DeleteSpec(s, key, dictFunc);
    }

    /**
     * The search and unlink of DictDelete once the rehash step is done: the
     * key's bucket in the first table and, while rehashing, in the second.
     */
    method UnlinkFrom(key: RedisObj) returns (he: DictEntry?)
      requires Shape() && Wf(Abs(), dictFunc) && ht0 != null
      modifies Footprint()
      ensures Shape() && ht0 == old(ht0) && ht1 == old(ht1)
      ensures Abs() == DeleteFrom(old(Abs()), key, dictFunc).0
      ensures he == OrNull(DeleteFrom(old(Abs()), key, dictFunc).1)
    {
      ghost var s1 := Abs();
      var i := 0;
      while i <= 1
        invariant 0 <= i <= 2
        invariant Shape() && ht0 == old(ht0) && ht1 == old(ht1) && Abs() == s1
        invariant i >= 1 ==> ht1 != null && DeleteAt(s1, 0, key, dictFunc).1.None?
        invariant i == 2 ==> DeleteAt(s1, 1, key, dictFunc).1.None?
      {
        he := UnlinkAt(i, key);
        if he != null {
          return;
        }
        if !DictIsRehashing() {
          break;
        }
        i := i + 1;
      }
      return null;
    }

    /** One pass of DictDelete's table loop: the search and unlink in table i. */
    method UnlinkAt(i: int, key: RedisObj) returns (he: DictEntry?)
      requires Shape() && Wf(Abs(), dictFunc) && ht0 != null && (i == 0 || (i == 1 && ht1 != null))
      modifies Footprint()
      ensures Shape() && ht0 == old(ht0) && ht1 == old(ht1)
      ensures Abs() == DeleteAt(old(Abs()), i, key, dictFunc).0
      ensures he == OrNull(DeleteAt(old(Abs()), i, key, dictFunc).1)
    {
      var ht := if i == 0 then ht0 else ht1;
      PowerAtLeast8(ht.size);
      he := ht.UnlinkKey(key, dictFunc);
    }

    /**
     * DictGetRandomKey: nil with no table; otherwise one rehash step while
     * rehashing, then a random non-empty bucket over both tables and a random
     * position in its chain. On a table with no entries the source's draw
     * never ends, so that case is excluded.
     */
    method DictGetRandomKey() returns (he: DictEntry?)
      requires Valid()
      requires ht0 != null ==> |Content(Abs())| > 0
      modifies Footprint()
      ensures Valid() && TablesFrom(old(ht0), old(ht1))
      ensures Abs() == RehashStep(old(Abs()), dictFunc)
      ensures he == null <==> old(ht0) == null
      ensures he != null ==> he in old(Content(Abs()))
    {
      if ht0 == null {
        return null;
      }
      if DictIsRehashing() {
        DictRehashStep();
      }
      he := PickEntry();
    }

    /**
     * DictGetRandomKey as its nil result intends: nil also when the tables
     * exist but hold no entry, decided from the `used` counts before any
     * draw, where the source would draw forever.
     */
    method DictGetRandomKeyChecked() returns (he: DictEntry?)
      requires Valid()
      modifies Footprint()
      ensures Valid() && TablesFrom(old(ht0), old(ht1))
      ensures Abs() == if he == null then old(Abs()) else RehashStep(old(Abs()), dictFunc)
      ensures he == null <==> old(ht0) == null || |old(Content(Abs()))| == 0
      ensures he != null ==> he in old(Content(Abs()))
    {
      if ht0 == null || ht0.used + (if ht1 == null then 0 else ht1.used) == 0 {
        return null;
      }
      he := DictGetRandomKey();
    }

    /**
     * The draw of DictGetRandomKey: a position over the buckets of the first
     * table and, while rehashing, of the second, redrawn until its chain is
     * not empty, then a position in that chain.
     */
    method PickEntry() returns (he: DictEntry)
      requires Shape() && Wf(Abs(), dictFunc) && ht0 != null && |Content(Abs())| > 0
      ensures he in Content(Abs())
    {
      ghost var slots := Slots(Abs(), dictFunc);
      SlotsHoldContent(Abs(), dictFunc);
      ghost var h0 :| 0 <= h0 < |slots| && slots[h0] != [];
      var chain: seq<DictEntry>;
      if DictIsRehashing() {
        assert slots == ht0.table[..] + ht1.table[..];
        var h :| 0 <= h < ht0.size + ht1.size && (ht0.table[..] + ht1.table[..])[h] != [];
        chain := BucketAt(h);
        assert chain == slots[h];
      } else {
        assert ht0.table[h0] == slots[h0];
        var h :| 0 <= h < ht0.size && ht0.table[h] != [];
        chain := ht0.table[h];
        assert chain == slots[h];
      }
      var listIdx :| 0 <= listIdx < |chain|;
      he := chain[listIdx];
    }

    /** Position h over the buckets of the first table followed by those of the second. */
    method BucketAt(h: int) returns (chain: seq<DictEntry>)
      requires Shape() && ht0 != null && ht1 != null && 0 <= h < ht0.size + ht1.size
      ensures chain == (ht0.table[..] + ht1.table[..])[h]
    {
      if h >= ht0.size {
        chain := ht1.table[h - ht0.size];
      } else {
        chain := ht0.table[h];
      }
    }

    /** DictGet: the value of the entry DictFind returns, or nil. */
    method DictGet(key: RedisObj) returns (v: RedisObj?)
      requires Valid()
      modifies Footprint()
      ensures Valid() && TablesFrom(old(ht0), old(ht1))
      ensures Abs() == Find(old(Abs()), key, dictFunc).0
      ensures var r := Find(old(Abs()), key, dictFunc).1;
        v == if r.Some? then r.value.val else null
    {
      var entry := DictFind(key);
      if entry == null {
        return null;
      }
      return entry.val;
    }
  }

  /** freeEntry: the entry's key and its value each lose a reference. */
  method FreeEntry(e: DictEntry)
    requires e.val != null
    modifies e.key, e.val
    ensures e.key.refCount == old(e.key.refCount) - (if e.key == e.val then 2 else 1)
    ensures e.val.refCount == old(e.val.refCount) - (if e.key == e.val then 2 else 1)
    ensures var n := if e.key == e.val then 2 else 1;
      && e.key.val_ == PayloadAfterDecrs(old(e.key.val_), old(e.key.refCount), n)
      && e.val.val_ == PayloadAfterDecrs(old(e.val.val_), old(e.val.refCount), n)
  {
    e.key.DecrRefCount();
    e.val.DecrRefCount();
  }

  /**
   * dictNextPower: the first of 8, 16, 32, ... that is at least size. The
   * doubling overflows int64 past 2^62 and the loop then never returns, so
   * requests above 2^62 are excluded.
   */
  method DictNextPower(size: int) returns (r: int)
    requires size <= POW62
    ensures r == NextPower(size)
    ensures IsPower(r) && size <= r <= POW62
  {
    var i := DICT_HT_INITIAL_SIZE;
    while i < MAX_INT64
      invariant IsPower(i) && i <= POW62
      invariant NextPowerFrom(i, size) == NextPower(size)
      decreases POW62 - i
    {
      if i >= size {
        return i;
      }
      NextPowerStep(i, size);
      i := i * 2;
    }
    assert false;
    r := -1;
  }
}
