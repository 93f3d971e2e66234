/**
 * The value-level meaning of the incremental-rehash dictionary of dict.go.
 * A table is its buckets (each bucket the chain from its head, in order) and
 * its `used` counter; a state is the two tables and the rehash cursor. Every
 * operation of the `Dict` class is proved against a function here, and the
 * invariants and the lookup, insert, delete and migration properties are
 * proved here once, on values.
 */
module DictSpec {
  import opened Optional
  import opened Obj

  const DICT_HT_INITIAL_SIZE: int := 8
  const DICT_FORCE_RESIZE_RATIO: int := 2
  const DICT_HT_GROW_RATIO: int := 2
  const DICT_DEFAULT_REHASH_STEP: int := 1
  const MAX_INT64: int := 0x7fff_ffff_ffff_ffff
  const POW62: int := 0x4000_0000_0000_0000
  const POW64: int := 0x1_0000_0000_0000_0000

  /** EP_ERR (expand refused), EX_ERR (add refused), NK_ERR (no such key). */
  datatype DictError = EpErr | ExErr | NkErr

  /** A dictionary entry; its key is fixed when it is created, its value is set afterwards. */
  class DictEntry {
    const key: RedisObj
    var val: RedisObj?

    constructor (k: RedisObj)
      ensures key == k && val == null
    {
      key := k;
      val := null;
    }
  }

  /** The caller-supplied hash and equality functions of a dictionary. */
  datatype DictFunc = DictFunc(hashFunc: RedisObj -> int, equalFunc: (RedisObj, RedisObj) -> bool)

  /** On the keys ks, equality is an equivalence and equal keys hash alike. */
  ghost predicate Sound(f: DictFunc, ks: set<RedisObj>)
  {
    && (forall a | a in ks :: f.equalFunc(a, a))
    && (forall a, b | a in ks && b in ks && f.equalFunc(a, b) :: f.equalFunc(b, a))
    && (forall a, b, c | a in ks && b in ks && c in ks && f.equalFunc(a, b) && f.equalFunc(b, c) :: f.equalFunc(a, c))
    && (forall a, b | a in ks && b in ks && f.equalFunc(a, b) :: f.hashFunc(a) == f.hashFunc(b))
  }

  datatype Table = Table(buckets: seq<seq<DictEntry>>, used: int)
  datatype State = State(t0: Option<Table>, t1: Option<Table>, rehashIdx: int)

  /** h & (size - 1) for a power-of-two size, which is h mod size for every int64 h. */
  function Slot(h: int, size: int): (b: int)
    requires size > 0
    ensures 0 <= b < size
  {
    h % size
  }

  /** The sizes dictNextPower produces: 8 times a power of two. */
  predicate IsPower(n: int)
    decreases n
  {
    n == 8 || (n > 8 && n % 2 == 0 && IsPower(n / 2))
  }

  /** The entries of all buckets, with multiplicity. */
  function Bag(bs: seq<seq<DictEntry>>): multiset<DictEntry>
  {
    if bs == [] then multiset{} else Bag(bs[..|bs| - 1]) + multiset(bs[|bs| - 1])
  }

  /** Every entry sits in the bucket its key hashes to. */
  ghost predicate Placed(bs: seq<seq<DictEntry>>, f: DictFunc)
  {
    forall b, e | 0 <= b < |bs| && e in bs[b] :: Slot(f.hashFunc(e.key), |bs|) == b
  }

  /** A well-formed table: a dictNextPower size, `used` counts its entries, entries are placed by hash. */
  ghost predicate TableOk(t: Table, f: DictFunc)
  {
    && IsPower(|t.buckets|)
    && |t.buckets| <= POW62
    && t.used == |Bag(t.buckets)|
    && Placed(t.buckets, f)
  }

  function TableBag(t: Option<Table>): multiset<DictEntry>
  {
    if t.Some? then Bag(t.value.buckets) else multiset{}
  }

  /** All entries of the dictionary, in either table. */
  function Content(s: State): multiset<DictEntry>
  {
    TableBag(s.t0) + TableBag(s.t1)
  }

  /** The key objects of a collection of entries. */
  ghost function Keys(m: multiset<DictEntry>): set<RedisObj>
  {
    set e | e in m :: e.key
  }

  /** Each entry occurs once and no two entries have equal keys. */
  ghost predicate Unique(m: multiset<DictEntry>, f: DictFunc)
  {
    && (forall e | e in m :: m[e] == 1)
    && (forall e1, e2 | e1 in m && e2 in m && e1 != e2 :: !f.equalFunc(e1.key, e2.key))
  }

  /**
   * The shape of a dictionary: the cursor is -1 exactly when there is no
   * second table, a second table only exists beside a first, both tables are
   * well formed, and buckets of the first table below the cursor are empty.
   */
  ghost predicate Wf(s: State, f: DictFunc)
  {
    && (s.t0.None? ==> s.t1.None?)
    && (s.rehashIdx == -1 <==> s.t1.None?)
    && (s.t0.Some? ==> TableOk(s.t0.value, f))
    && (s.t1.Some? ==> TableOk(s.t1.value, f))
    && (s.t1.Some? ==> 0 <= s.rehashIdx <= |s.t0.value.buckets|)
    && (s.t1.Some? ==> forall b | 0 <= b < s.rehashIdx :: s.t0.value.buckets[b] == [])
  }

  /** The dictionary invariant: a well-formed shape, and keys unique across both tables. */
  ghost predicate Inv(s: State, f: DictFunc)
  {
    Wf(s, f) && Unique(Content(s), f)
  }

  /** DictIsRehashing. */
  predicate Rehashing(s: State)
  {
    s.rehashIdx != -1
  }

  // ---------------------------------------------------------------------
  // Bags of buckets

  lemma {:induction false} BagMember(bs: seq<seq<DictEntry>>, e: DictEntry)
    ensures e in Bag(bs) <==> exists b | 0 <= b < |bs| :: e in bs[b]
  {
    if bs != [] {
      var n := |bs|;
      BagMember(bs[..n - 1], e);
      if e in Bag(bs[..n - 1]) {
        var b :| 0 <= b < n - 1 && e in bs[..n - 1][b];
        assert e in bs[b];
      }
      if exists b | 0 <= b < n :: e in bs[b] {
        var b :| 0 <= b < n && e in bs[b];
        if b < n - 1 {
          assert e in bs[..n - 1][b];
        }
      }
    }
  }

  lemma {:induction false} BagUpdate(bs: seq<seq<DictEntry>>, i: int, c: seq<DictEntry>)
    requires 0 <= i < |bs|
    ensures Bag(bs[i := c]) + multiset(bs[i]) == Bag(bs) + multiset(c)
  {
    var n := |bs|;
    if i == n - 1 {
      assert bs[i := c][..n - 1] == bs[..n - 1];
    } else {
      var updated := bs[i := c];
      BagUpdate(bs[..n - 1], i, c);
      assert updated[..n - 1] == bs[..n - 1][i := c];
      assert updated[n - 1] == bs[n - 1] && bs[..n - 1][i] == bs[i];
      calc {
        Bag(updated) + multiset(bs[i]);
        Bag(bs[..n - 1][i := c]) + multiset(bs[n - 1]) + multiset(bs[..n - 1][i]);
        Bag(bs[..n - 1]) + multiset(c) + multiset(bs[n - 1]);
        Bag(bs) + multiset(c);
      }
    }
  }

  lemma {:induction false} BagOfEmpty(bs: seq<seq<DictEntry>>)
    requires forall b | 0 <= b < |bs| :: bs[b] == []
    ensures Bag(bs) == multiset{}
  {
    if bs != [] {
      BagOfEmpty(bs[..|bs| - 1]);
    }
  }

  lemma MultisetCancel(a: multiset<DictEntry>, b: multiset<DictEntry>, c: multiset<DictEntry>)
    requires a + c == b + c
    ensures a == b
  {
    forall x
      ensures a[x] == b[x]
    {
      assert (a + c)[x] == (b + c)[x];
    }
  }

  /** A bucket's entries are part of the table's bag. */
  lemma BucketInBag(bs: seq<seq<DictEntry>>, i: int)
    requires 0 <= i < |bs|
    ensures multiset(bs[i]) <= Bag(bs)
  {
    BagUpdate(bs, i, []);
  }

  // ---------------------------------------------------------------------
  // Sizes

  /** The size dictNextPower returns for a request, searching upward from i. */
  function NextPowerFrom(i: int, size: int): (r: int)
    requires IsPower(i) && i <= POW62 && size <= POW62
    ensures IsPower(r) && r <= POW62 && r >= size && r >= i
    decreases POW62 - i
  {
    if i >= size then i
    else
      DoublePower(i);
      NextPowerFrom(i * 2, size)
  }

  /** One doubling of the search stays admissible and does not change its outcome. */
  lemma NextPowerStep(i: int, size: int)
    requires IsPower(i) && i <= POW62 && size <= POW62 && i < size
    ensures IsPower(i * 2) && i * 2 <= POW62
    ensures NextPowerFrom(i * 2, size) == NextPowerFrom(i, size)
  {
    DoublePower(i);
  }

  /** Below 2^62, doubling a size of the form 8 * 2^k stays of that form and at most 2^62. */
  lemma DoublePower(n: int)
    requires IsPower(n) && n < POW62
    ensures IsPower(n * 2) && n * 2 <= POW62
  {
    Pow62IsPower();
    PowerDouble(n, POW62);
    PowerAtLeast8(n);
    assert (n * 2) / 2 == n;
  }

  /** dictNextPower: the smallest 8 * 2^k that is at least size (defined for size <= 2^62). */
  function NextPower(size: int): (r: int)
    requires size <= POW62
  {
    NextPowerFrom(DICT_HT_INITIAL_SIZE, size)
  }

  lemma {:induction false} PowerAtLeast8(n: int)
    requires IsPower(n)
    ensures n >= 8
    decreases n
  {
    if n != 8 {
      PowerAtLeast8(n / 2);
    }
  }

  /** Between two sizes of the form 8 * 2^k there is at least a factor of two. */
  lemma {:induction false} PowerDouble(n: int, m: int)
    requires IsPower(n) && IsPower(m) && n < m
    ensures 2 * n <= m
    decreases n
  {
    PowerAtLeast8(n);
    if n == 8 {
      PowerAtLeast8(m / 2);
    } else {
      PowerAtLeast8(m / 2);
      PowerDouble(n / 2, m / 2);
    }
  }

  function Pow2(k: nat): nat
  {
    if k == 0 then 1 else 2 * Pow2(k - 1)
  }

  lemma {:induction false} Pow2Add(a: nat, b: nat)
    ensures Pow2(a + b) == Pow2(a) * Pow2(b)
  {
    if a > 0 {
      Pow2Add(a - 1, b);
    }
  }

  lemma {:induction false} PowerPow2(k: nat)
    ensures IsPower(8 * Pow2(k))
  {
    if k > 0 {
      PowerPow2(k - 1);
      assert 8 * Pow2(k) == 2 * (8 * Pow2(k - 1));
    }
  }

  lemma Pow62IsPower()
    ensures IsPower(POW62)
  {
    assert Pow2(5) == 32;
    Pow2Add(5, 5);
    assert Pow2(10) == 0x400;
    Pow2Add(10, 10);
    assert Pow2(20) == 0x10_0000;
    Pow2Add(20, 20);
    assert Pow2(40) == 0x100_0000_0000;
    Pow2Add(40, 10);
    assert Pow2(50) == 0x4_0000_0000_0000;
    Pow2Add(50, 5);
    assert Pow2(55) == 0x80_0000_0000_0000;
    assert Pow2(4) == 16;
    Pow2Add(55, 4);
    assert Pow2(59) == 0x800_0000_0000_0000;
    PowerPow2(59);
  }

  /** The result of dictNextPower is the least admissible size not below the request. */
  lemma {:induction false} NextPowerLeast(i: int, size: int, m: int)
    requires IsPower(i) && i <= POW62 && size <= POW62
    requires IsPower(m) && m >= size && m >= i
    ensures NextPowerFrom(i, size) <= m
    decreases POW62 - i
  {
    if i < size {
      NextPowerStep(i, size);
      if i < m {
        PowerDouble(i, m);
      }
      NextPowerLeast(i * 2, size, m);
    }
  }

  /** dictNextPower returns the least admissible size not below the request. */
  lemma NextPowerMinimal(size: int, m: int)
    requires size <= POW62 && IsPower(m) && m >= size
    ensures NextPower(size) <= m
  {
    PowerAtLeast8(m);
    NextPowerLeast(DICT_HT_INITIAL_SIZE, size, m);
  }

  /** The loop variable of dictNextPower after k doublings, in int64 arithmetic. */
  function PowerLoopVar(k: nat): int
  {
    if k == 0 then DICT_HT_INITIAL_SIZE else Wrap64(PowerLoopVar(k - 1) * 2)
  }

  /** The loop variable is an admissible size, or has wrapped to -2^63, after which it stays 0. */
  lemma {:induction false} PowerLoopVarRange(k: nat)
    ensures var v := PowerLoopVar(k);
      (IsPower(v) && v <= POW62) || v == -MAX_INT64 - 1 || v == 0
  {
    if k > 0 {
      PowerLoopVarRange(k - 1);
      var v := PowerLoopVar(k - 1);
      if IsPower(v) && v < POW62 {
        DoublePower(v);
      } else if v == POW62 {
        assert Wrap64(v * 2) == -MAX_INT64 - 1;
      } else if v == -MAX_INT64 - 1 {
        assert Wrap64(v * 2) == 0;
      }
    }
  }

  /**
   * As written, dictNextPower(size) with size > 2^62 never returns: on every
   * pass the loop test i < math.MaxInt64 holds and the test i >= size fails.
   */
  lemma NextPowerNeverReturns(size: int, k: nat)
    requires POW62 < size
    ensures PowerLoopVar(k) < MAX_INT64 && PowerLoopVar(k) < size
  {
    PowerLoopVarRange(k);
  }

  /** dictNextPower as its trailing `return -1` intends: -1 when no admissible size reaches size. */
  function NextPowerChecked(size: int): int
  {
    if size <= POW62 then NextPower(size) else -1
  }

  /** The checked search fails exactly above 2^62, and otherwise finds the least admissible size reaching size. */
  lemma NextPowerCheckedSpec(size: int)
    ensures NextPowerChecked(size) == -1 <==> size > POW62
    ensures NextPowerChecked(size) != -1 ==>
      && IsPower(NextPowerChecked(size)) && size <= NextPowerChecked(size)
      && forall m | IsPower(m) && m >= size :: NextPowerChecked(size) <= m
  {
    if size <= POW62 {
      PowerAtLeast8(NextPower(size));
      forall m | IsPower(m) && m >= size
        ensures NextPower(size) <= m
      {
        NextPowerMinimal(size, m);
      }
    }
  }

  // ---------------------------------------------------------------------
  // Migration (DictRehash)

  /** The first non-empty bucket at or after i. */
  function NextNonEmpty(bs: seq<seq<DictEntry>>, i: int): (j: int)
    requires 0 <= i <= |bs| && exists k | i <= k < |bs| :: bs[k] != []
    ensures i <= j < |bs| && bs[j] != []
    ensures forall k | i <= k < j :: bs[k] == []
    decreases |bs| - i
  {
    if bs[i] != [] then i else NextNonEmpty(bs, i + 1)
  }

  /** While rehashing with entries left in the first table, a non-empty bucket lies at or after the cursor. */
  lemma NonEmptyAhead(s: State, f: DictFunc)
    requires Wf(s, f) && s.t1.Some? && s.t0.value.used != 0
    ensures exists k | s.rehashIdx <= k < |s.t0.value.buckets| :: s.t0.value.buckets[k] != []
  {
    var bs := s.t0.value.buckets;
    var e :| e in Bag(bs);
    BagMember(bs, e);
    var b :| 0 <= b < |bs| && e in bs[b];
    assert s.rehashIdx <= b;
  }

  /** The second table's buckets after each entry of chain is pushed, in order, onto the head of its bucket. */
  function MoveChain(bs: seq<seq<DictEntry>>, chain: seq<DictEntry>, f: DictFunc): (r: seq<seq<DictEntry>>)
    requires |bs| > 0
    ensures |r| == |bs|
  {
    if chain == [] then bs
    else
      var prev := MoveChain(bs, chain[..|chain| - 1], f);
      var e := chain[|chain| - 1];
      var h := Slot(f.hashFunc(e.key), |bs|);
      prev[h := [e] + prev[h]]
  }

  /** Pushing an entry onto one bucket adds exactly that entry. */
  lemma BagPrepend(bs: seq<seq<DictEntry>>, h: int, e: DictEntry)
    requires 0 <= h < |bs|
    ensures Bag(bs[h := [e] + bs[h]]) == Bag(bs) + multiset{e}
  {
    var c := [e] + bs[h];
    BagUpdate(bs, h, c);
    assert multiset(c) == multiset{e} + multiset(bs[h]);
    MultisetCancel(Bag(bs[h := c]), Bag(bs) + multiset{e}, multiset(bs[h]));
  }

  lemma MultisetSnoc(c: seq<DictEntry>)
    requires c != []
    ensures multiset(c) == multiset(c[..|c| - 1]) + multiset{c[|c| - 1]}
  {
    assert c == c[..|c| - 1] + [c[|c| - 1]];
  }

  /** Moving a chain adds exactly its entries. */
  lemma {:induction false} MoveChainBag(bs: seq<seq<DictEntry>>, chain: seq<DictEntry>, f: DictFunc)
    requires |bs| > 0
    ensures Bag(MoveChain(bs, chain, f)) == Bag(bs) + multiset(chain)
  {
    if chain != [] {
      var n := |chain|;
      var pre := chain[..n - 1];
      var e := chain[n - 1];
      var h := Slot(f.hashFunc(e.key), |bs|);
      MoveChainBag(bs, pre, f);
      var prev := MoveChain(bs, pre, f);
      BagPrepend(prev, h, e);
      MultisetSnoc(chain);
    }
  }

  /** Moving a chain puts each entry in the bucket its key hashes to. */
  lemma {:induction false} MoveChainPlaced(bs: seq<seq<DictEntry>>, chain: seq<DictEntry>, f: DictFunc)
    requires |bs| > 0 && Placed(bs, f)
    ensures Placed(MoveChain(bs, chain, f), f)
  {
    if chain != [] {
      var n := |chain|;
      MoveChainPlaced(bs, chain[..n - 1], f);
      var prev := MoveChain(bs, chain[..n - 1], f);
      var e := chain[n - 1];
      var h := Slot(f.hashFunc(e.key), |bs|);
      var r := prev[h := [e] + prev[h]];
      assert r == MoveChain(bs, chain, f);
      forall b, x: DictEntry | 0 <= b < |r| && x in r[b]
        ensures Slot(f.hashFunc(x.key), |r|) == b
      {
        if b == h && x != e {
          assert x in prev[h];
        }
      }
    }
  }

  /**
   * One iteration of the DictRehash loop: when the first table is empty the
   * second replaces it and rehashing ends; otherwise the cursor skips empty
   * buckets, the chain it reaches moves to the second table, and the cursor
   * passes it.
   */
  function Step(s: State, f: DictFunc): State
    requires Wf(s, f) && s.t1.Some?
  {
    var t0 := s.t0.value;
    var t1 := s.t1.value;
    if t0.used == 0 then State(s.t1, None, -1)
    else
      NonEmptyAhead(s, f);
      StepAt(s, NextNonEmpty(t0.buckets, s.rehashIdx), f)
  }

  /** The chain of bucket i of the first table moves to the second table, and the cursor passes it. */
  function StepAt(s: State, i: int, f: DictFunc): State
    requires s.t0.Some? && s.t1.Some? && 0 <= i < |s.t0.value.buckets| && |s.t1.value.buckets| > 0
  {
    var t0 := s.t0.value;
    var t1 := s.t1.value;
    var chain := t0.buckets[i];
    State(Some(Table(t0.buckets[i := []], t0.used - |chain|)),
          Some(Table(MoveChain(t1.buckets, chain, f), t1.used + |chain|)),
          i + 1)
  }

  /** How many more steps rehashing can take at most. */
  function Remaining(s: State): int
  {
    if s.t1.None? || s.t0.None? then 0 else |s.t0.value.buckets| - s.rehashIdx + 1
  }

  /** When the first table is empty, the step that swaps the tables keeps the invariant and the entries. */
  lemma StepSwap(s: State, f: DictFunc)
    requires Wf(s, f) && s.t1.Some? && s.t0.value.used == 0
    ensures Wf(Step(s, f), f) && Content(Step(s, f)) == Content(s)
  {
    var s' := Step(s, f);
    assert s' == State(s.t1, None, -1);
    assert Bag(s.t0.value.buckets) == multiset{};
    assert Content(s') == Content(s);
  }

  /** Moving one chain keeps the invariant, the entries and the total of the two `used` counters. */
  lemma StepMove(s: State, f: DictFunc)
    requires Wf(s, f) && s.t1.Some? && s.t0.value.used != 0
    ensures Wf(Step(s, f), f) && Content(Step(s, f)) == Content(s)
    ensures Step(s, f).t1.Some? && Step(s, f).rehashIdx > s.rehashIdx
    ensures Step(s, f).t0.value.used + Step(s, f).t1.value.used == s.t0.value.used + s.t1.value.used
  {
    NonEmptyAhead(s, f);
    StepAtOk(s, NextNonEmpty(s.t0.value.buckets, s.rehashIdx), f);
  }

  /** Moving the chain of a bucket at or after the cursor, with only empty buckets between, keeps the invariant and the entries. */
  lemma StepAtOk(s: State, i: int, f: DictFunc)
    requires Wf(s, f) && s.t1.Some? && s.rehashIdx <= i < |s.t0.value.buckets|
    requires forall k | s.rehashIdx <= k < i :: s.t0.value.buckets[k] == []
    ensures var s' := StepAt(s, i, f);
      && Wf(s', f) && Content(s') == Content(s)
      && s'.t1.Some? && s'.rehashIdx > s.rehashIdx
      && s'.t0.value.used + s'.t1.value.used == s.t0.value.used + s.t1.value.used
  {
    var t0 := s.t0.value;
    var t1 := s.t1.value;
    var chain := t0.buckets[i];
    var b0 := t0.buckets[i := []];
    var b1 := MoveChain(t1.buckets, chain, f);
    var s' := StepAt(s, i, f);
    assert s' == State(Some(Table(b0, t0.used - |chain|)), Some(Table(b1, t1.used + |chain|)), i + 1);
    EmptyBucketOk(t0, i, f);
    MoveChainBag(t1.buckets, chain, f);
    MoveChainPlaced(t1.buckets, chain, f);
    assert TableOk(s'.t1.value, f);
    forall b | 0 <= b < i + 1
      ensures b0[b] == []
    {
    }
    assert Content(s') == Bag(b0) + Bag(b1);
  }

  /** Emptying bucket i keeps the table well formed and takes exactly that chain out of its bag. */
  lemma EmptyBucketOk(t: Table, i: int, f: DictFunc)
    requires TableOk(t, f) && 0 <= i < |t.buckets|
    ensures var t' := Table(t.buckets[i := []], t.used - |t.buckets[i]|);
      && TableOk(t', f)
      && Bag(t'.buckets) + multiset(t.buckets[i]) == Bag(t.buckets)
  {
    var b0 := t.buckets[i := []];
    BagUpdate(t.buckets, i, []);
    assert Bag(b0) + multiset(t.buckets[i]) == Bag(t.buckets);
    forall b, x: DictEntry | 0 <= b < |b0| && x in b0[b]
      ensures Slot(f.hashFunc(x.key), |b0|) == b
    {
      assert x in t.buckets[b];
    }
  }

  /**
   * A step keeps the invariant and the entries, keeps the total of the two
   * `used` counters, and brings the end of rehashing closer.
   */
  lemma StepPreserves(s: State, f: DictFunc)
    requires Wf(s, f) && s.t1.Some?
    ensures Wf(Step(s, f), f)
    ensures Content(Step(s, f)) == Content(s)
    ensures 0 <= Remaining(Step(s, f)) < Remaining(s)
    ensures Step(s, f).t0.Some?
    ensures Step(s, f).t1.Some? ==> Step(s, f).t0.value.used + Step(s, f).t1.value.used == s.t0.value.used + s.t1.value.used
  {
    if s.t0.value.used == 0 {
      StepSwap(s, f);
    } else {
      StepMove(s, f);
    }
  }

  /** DictRehash(n): up to n steps, stopping as soon as rehashing ends. */
  function RehashN(s: State, f: DictFunc, n: int): State
    requires Wf(s, f)
    decreases n
  {
    if n <= 0 || s.t1.None? then s
    else
      StepPreserves(s, f);
      RehashN(Step(s, f), f, n - 1)
  }

  /** Any number of rehash steps keeps the invariant and the entries. */
  lemma {:induction false} RehashKeeps(s: State, f: DictFunc, n: int)
    requires Wf(s, f)
    ensures Wf(RehashN(s, f, n), f) && Content(RehashN(s, f, n)) == Content(s)
    ensures s.t0.Some? ==> RehashN(s, f, n).t0.Some?
    decreases n
  {
    if n > 0 && s.t1.Some? {
      StepPreserves(s, f);
      RehashKeeps(Step(s, f), f, n - 1);
    }
  }

  /** After one step of n, n - 1 remain; a step that ends rehashing ends the loop. */
  lemma StepAdvances(s: State, f: DictFunc, n: int)
    requires Wf(s, f) && s.t1.Some? && n > 0
    ensures Wf(Step(s, f), f)
    ensures RehashN(s, f, n) == RehashN(Step(s, f), f, n - 1)
    ensures Step(s, f).t1.None? ==> RehashN(s, f, n) == Step(s, f)
  {
    StepPreserves(s, f);
  }

  /** DictRehashStep: DictRehash(DICT_DEFAULT_REHASH_STEP). */
  function RehashStep(s: State, f: DictFunc): (r: State)
    requires Wf(s, f)
    ensures Wf(r, f) && Content(r) == Content(s)
    ensures s.t0.Some? ==> r.t0.Some?
    ensures !Rehashing(s) ==> r == s
  {
    RehashKeeps(s, f, DICT_DEFAULT_REHASH_STEP);
    RehashN(s, f, DICT_DEFAULT_REHASH_STEP)
  }

  /** From any state, Remaining(s) steps finish rehashing. */
  lemma {:induction false} RehashEnds(s: State, f: DictFunc, n: int)
    requires Wf(s, f) && n >= Remaining(s)
    ensures !Rehashing(RehashN(s, f, n))
    decreases n
  {
    if s.t1.Some? {
      StepPreserves(s, f);
      RehashEnds(Step(s, f), f, n - 1);
    }
  }

  /** Rehashing of a first table of size N ends within N + 1 steps. */
  lemma RehashWithinSize(s: State, f: DictFunc)
    requires Wf(s, f) && s.t0.Some?
    ensures !Rehashing(RehashN(s, f, |s.t0.value.buckets| + 1))
  {
    RehashEnds(s, f, |s.t0.value.buckets| + 1);
  }

  // ---------------------------------------------------------------------
  // Lookup (DictFind)

  /** Some entry of m has a key equal to k. */
  ghost predicate HasKey(m: multiset<DictEntry>, k: RedisObj, f: DictFunc)
  {
    exists e | e in m :: f.equalFunc(e.key, k)
  }

  /** Position of the first entry of a chain whose key matches k, or |chain| when none does. */
  function ChainIndex(chain: seq<DictEntry>, k: RedisObj, f: DictFunc): (j: nat)
    ensures j <= |chain|
    ensures forall i | 0 <= i < j :: !f.equalFunc(chain[i].key, k)
    ensures j < |chain| ==> f.equalFunc(chain[j].key, k)
  {
    if chain == [] then 0
    else if f.equalFunc(chain[0].key, k) then 0
    else 1 + ChainIndex(chain[1..], k, f)
  }

  /** The first entry of a chain whose key matches k. */
  function ChainFind(chain: seq<DictEntry>, k: RedisObj, f: DictFunc): Option<DictEntry>
  {
    var j := ChainIndex(chain, k, f);
    if j < |chain| then Some(chain[j]) else None
  }

  /** The bucket of t that hash h selects. */
  function Bucket(t: Table, h: int): seq<DictEntry>
    requires |t.buckets| > 0
  {
    t.buckets[Slot(h, |t.buckets|)]
  }

  /**
   * The search of DictFind once the rehash step is done: the key's bucket in
   * the first table, then, only while rehashing, its bucket in the second.
   */
  function Lookup(s: State, k: RedisObj, f: DictFunc): (r: Option<DictEntry>)
    requires Wf(s, f) && s.t0.Some?
    ensures r.Some? ==> r.value in Content(s) && f.equalFunc(r.value.key, k)
  {
    var h := f.hashFunc(k);
    PowerAtLeast8(|s.t0.value.buckets|);
    BucketInBag(s.t0.value.buckets, Slot(h, |s.t0.value.buckets|));
    var r0 := ChainFind(Bucket(s.t0.value, h), k, f);
    if r0.Some? || !Rehashing(s) then r0
    else
      PowerAtLeast8(|s.t1.value.buckets|);
      BucketInBag(s.t1.value.buckets, Slot(h, |s.t1.value.buckets|));
      ChainFind(Bucket(s.t1.value, h), k, f)
  }

  /** An entry whose key equals k sits in the bucket that k's hash selects. */
  lemma EntryInKeyBucket(t: Table, e: DictEntry, k: RedisObj, f: DictFunc)
    requires TableOk(t, f) && e in Bag(t.buckets)
    requires Sound(f, {e.key, k}) && f.equalFunc(e.key, k)
    ensures |t.buckets| > 0 && e in Bucket(t, f.hashFunc(k))
  {
    BagMember(t.buckets, e);
  }

  /** A chain holding an entry whose key matches k has a first match. */
  lemma ChainFindsMember(chain: seq<DictEntry>, e: DictEntry, k: RedisObj, f: DictFunc)
    requires e in chain && f.equalFunc(e.key, k)
    ensures ChainFind(chain, k, f).Some?
  {
    var i :| 0 <= i < |chain| && chain[i] == e;
  }

  /** DictFind misses exactly when no entry's key equals k. */
  lemma LookupComplete(s: State, k: RedisObj, f: DictFunc)
    requires Wf(s, f) && s.t0.Some? && Sound(f, Keys(Content(s)) + {k})
    ensures Lookup(s, k, f).None? <==> !HasKey(Content(s), k, f)
  {
    if HasKey(Content(s), k, f) {
      var e :| e in Content(s) && f.equalFunc(e.key, k);
      LookupFindsMember(s, k, f, e);
    }
  }

  /** DictFind finds something whenever some entry's key equals k. */
  lemma LookupFindsMember(s: State, k: RedisObj, f: DictFunc, e: DictEntry)
    requires Wf(s, f) && s.t0.Some? && Sound(f, Keys(Content(s)) + {k})
    requires e in Content(s) && f.equalFunc(e.key, k)
    ensures Lookup(s, k, f).Some?
  {
    assert e.key in Keys(Content(s));
    SoundSubset(f, Keys(Content(s)) + {k}, {e.key, k});
    var h := f.hashFunc(k);
    if e in TableBag(s.t0) {
      EntryInKeyBucket(s.t0.value, e, k, f);
      ChainFindsMember(Bucket(s.t0.value, h), e, k, f);
    } else {
      assert s.t1.Some? && Rehashing(s);
      EntryInKeyBucket(s.t1.value, e, k, f);
      ChainFindsMember(Bucket(s.t1.value, h), e, k, f);
    }
  }

  /** Soundness on a set of keys carries over to any subset. */
  lemma SoundSubset(f: DictFunc, ks: set<RedisObj>, sub: set<RedisObj>)
    requires Sound(f, ks) && sub <= ks
    ensures Sound(f, sub)
  {
  }

  /** Under unique keys, a found entry is the only one whose key equals k. */
  lemma LookupUnique(s: State, k: RedisObj, f: DictFunc, e: DictEntry)
    requires Inv(s, f) && s.t0.Some? && Sound(f, Keys(Content(s)) + {k})
    requires e in Content(s) && f.equalFunc(e.key, k)
    ensures Lookup(s, k, f) == Some(e)
  {
    LookupComplete(s, k, f);
    var r := Lookup(s, k, f).value;
    assert r.key in Keys(Content(s)) && e.key in Keys(Content(s));
    assert f.equalFunc(k, e.key);
  }

  /** What DictFind returns depends only on the entries, not on how they are spread over the tables. */
  lemma LookupByContent(s1: State, s2: State, k: RedisObj, f: DictFunc)
    requires Inv(s1, f) && s1.t0.Some? && Inv(s2, f) && s2.t0.Some?
    requires Content(s1) == Content(s2) && Sound(f, Keys(Content(s1)) + {k})
    ensures Lookup(s1, k, f) == Lookup(s2, k, f)
  {
    LookupComplete(s1, k, f);
    LookupComplete(s2, k, f);
    if Lookup(s1, k, f).Some? {
      LookupUnique(s2, k, f, Lookup(s1, k, f).value);
    }
  }

  /** Rehash steps never change what DictFind finds. */
  lemma RehashKeepsLookup(s: State, k: RedisObj, f: DictFunc, n: int)
    requires Inv(s, f) && s.t0.Some? && Sound(f, Keys(Content(s)) + {k})
    ensures Wf(RehashN(s, f, n), f) && RehashN(s, f, n).t0.Some?
      && Lookup(RehashN(s, f, n), k, f) == Lookup(s, k, f)
  {
    RehashKeeps(s, f, n);
    LookupByContent(s, RehashN(s, f, n), k, f);
  }

  /** DictFind: no table means no entry; otherwise one rehash step, then the search. */
  function Find(s: State, k: RedisObj, f: DictFunc): (State, Option<DictEntry>)
    requires Wf(s, f)
  {
    if s.t0.None? then (s, None)
    else
      var s1 := RehashStep(s, f);
      (s1, Lookup(s1, k, f))
  }

  /**
   * DictFind keeps the invariant and the entries, and finds an entry exactly
   * when one with an equal key is stored: the one DictFind would have found
   * before the rehash step.
   */
  lemma FindSpec(s: State, k: RedisObj, f: DictFunc)
    requires Inv(s, f) && Sound(f, Keys(Content(s)) + {k})
    ensures Inv(Find(s, k, f).0, f) && Content(Find(s, k, f).0) == Content(s)
    ensures Find(s, k, f).1.Some? <==> HasKey(Content(s), k, f)
    ensures Find(s, k, f).1.Some? ==> Find(s, k, f).1.value in Content(s) && f.equalFunc(Find(s, k, f).1.value.key, k)
    ensures s.t0.Some? ==> Find(s, k, f).1 == Lookup(s, k, f)
  {
    if s.t0.Some? {
      RehashKeepsLookup(s, k, f, DICT_DEFAULT_REHASH_STEP);
      LookupComplete(s, k, f);
    }
  }

  // ---------------------------------------------------------------------
  // Sizing (DictExpand, dictExpandIfNeeded)

  /** An int64 result of a multiplication that may overflow, in two's complement. */
  function Wrap64(x: int): (r: int)
    ensures -MAX_INT64 - 1 <= r <= MAX_INT64
    ensures -MAX_INT64 - 1 <= x <= MAX_INT64 ==> r == x
    ensures (r - x) % POW64 == 0
  {
    (x + MAX_INT64 + 1) % POW64 - MAX_INT64 - 1
  }

  /** A table of n empty buckets with `used` = 0. */
  function EmptyTable(n: int): (t: Table)
    requires n >= 0
    ensures |t.buckets| == n && t.used == 0
    ensures forall b | 0 <= b < n :: t.buckets[b] == []
  {
    Table(seq(n, _ => []), 0)
  }

  /**
   * DictExpand(n): refused while rehashing or when the first table holds more
   * than n entries; otherwise an empty table of dictNextPower(n) buckets
   * becomes the first table, or, when there is one, the second table, and
   * rehashing starts at bucket 0. dictNextPower(n) does not return for
   * n > 2^62, hence the precondition.
   */
  function Expand(s: State, n: int, f: DictFunc): (State, Option<DictError>)
    requires n <= POW62
  {
    if Rehashing(s) || (s.t0.Some? && s.t0.value.used > n) then (s, Some(EpErr))
    else
      var t := EmptyTable(NextPower(n));
      if s.t0.None? then (s.(t0 := Some(t)), None)
      else (State(s.t0, Some(t), 0), None)
  }

  /** DictExpand keeps the invariant and the entries, and fails exactly on its two guards. */
  lemma ExpandKeeps(s: State, n: int, f: DictFunc)
    requires Wf(s, f) && n <= POW62
    ensures Wf(Expand(s, n, f).0, f) && Content(Expand(s, n, f).0) == Content(s)
    ensures Expand(s, n, f).1 == Some(EpErr) <==> Rehashing(s) || (s.t0.Some? && s.t0.value.used > n)
    ensures Expand(s, n, f).1 != None ==> Expand(s, n, f).0 == s
    ensures Expand(s, n, f).1 == None ==> Expand(s, n, f).0.t0.Some?
  {
    var (r, err) := Expand(s, n, f);
    if err.None? {
      var t := EmptyTable(NextPower(n));
      BagOfEmpty(t.buckets);
      assert Bag(t.buckets) == multiset{};
      assert TableOk(t, f);
      assert Content(r) == Content(s);
    }
  }

  /** The new table of a successful DictExpand has the least admissible size that is not below n. */
  lemma ExpandSize(s: State, n: int, f: DictFunc, m: int)
    requires n <= POW62 && Expand(s, n, f).1.None?
    requires IsPower(m) && m >= n
    ensures var r := Expand(s, n, f).0;
      var t := if s.t0.None? then r.t0.value else r.t1.value;
      && IsPower(|t.buckets|) && n <= |t.buckets| <= m && t.used == 0
      && (s.t0.Some? ==> r.rehashIdx == 0 && r.t0 == s.t0)
  {
    PowerAtLeast8(m);
    NextPowerLeast(DICT_HT_INITIAL_SIZE, n, m);
  }

  /** dictExpandIfNeeded's growth condition: `used` > size and used / size > DICT_FORCE_RESIZE_RATIO. */
  predicate GrowthDue(s: State)
  {
    && !Rehashing(s)
    && s.t0.Some?
    && |s.t0.value.buckets| > 0
    && s.t0.value.used > |s.t0.value.buckets|
    && s.t0.value.used / |s.t0.value.buckets| > DICT_FORCE_RESIZE_RATIO
  }

  /** Doubling a table size of at most 2^62 gives at most 2^62, or 2^63, which wraps to -2^63. */
  lemma DoubleWraps(n: int)
    requires IsPower(n) && n <= POW62
    ensures Wrap64(n * DICT_HT_GROW_RATIO) <= POW62
  {
    if n < POW62 {
      DoublePower(n);
    }
  }

  /**
   * dictExpandIfNeeded: nothing while rehashing; a missing first table is
   * created with DICT_HT_INITIAL_SIZE buckets; when growth is due, DictExpand
   * is asked for size * DICT_HT_GROW_RATIO (an int64 product).
   */
  function ExpandIfNeeded(s: State, f: DictFunc): (State, Option<DictError>)
    requires Wf(s, f)
  {
    if Rehashing(s) then (s, None)
    else if s.t0.None? then Expand(s, DICT_HT_INITIAL_SIZE, f)
    else if GrowthDue(s) then
      DoubleWraps(|s.t0.value.buckets|);
      Expand(s, Wrap64(|s.t0.value.buckets| * DICT_HT_GROW_RATIO), f)
    else (s, None)
  }

  /**
   * The growth request can never pass DictExpand's guard: used / size > 2
   * means used >= 3 * size > 2 * size. So dictExpandIfNeeded fails exactly
   * when growth is due, and then changes nothing.
   */
  lemma ExpandIfNeededFails(s: State, f: DictFunc)
    requires Wf(s, f)
    ensures ExpandIfNeeded(s, f).1.Some? <==> GrowthDue(s)
    ensures ExpandIfNeeded(s, f).1.Some? ==> ExpandIfNeeded(s, f) == (s, Some(EpErr))
    ensures Wf(ExpandIfNeeded(s, f).0, f) && Content(ExpandIfNeeded(s, f).0) == Content(s)
    ensures ExpandIfNeeded(s, f).1.None? ==> ExpandIfNeeded(s, f).0.t0.Some?
    ensures Rehashing(ExpandIfNeeded(s, f).0) == Rehashing(s)
  {
    if Rehashing(s) {
    } else if s.t0.None? {
      ExpandKeeps(s, DICT_HT_INITIAL_SIZE, f);
    } else if GrowthDue(s) {
      GrowthRefused(s, f);
    }
  }

  /** A due growth asks DictExpand for twice the size, which is below `used`, so it is refused. */
  lemma GrowthRefused(s: State, f: DictFunc)
    requires Wf(s, f) && GrowthDue(s)
    ensures ExpandIfNeeded(s, f) == (s, Some(EpErr))
  {
    var size := |s.t0.value.buckets|;
    var used := s.t0.value.used;
    DoubleWraps(size);
    QuotientBound(used, size);
    ExpandKeeps(s, Wrap64(size * DICT_HT_GROW_RATIO), f);
  }

  /** A quotient above 2 means the dividend is at least three times the divisor. */
  lemma QuotientBound(used: int, size: int)
    requires size > 0 && used / size > DICT_FORCE_RESIZE_RATIO
    ensures used >= 3 * size
  {
    assert used / size >= 3;
  }

  // ---------------------------------------------------------------------
  // Insertion (DictKeyIndex, DictAddRaw)

  /** A key is found exactly when a matching entry lies in its bucket of the first table or, while rehashing, of the second. */
  lemma LookupByBuckets(s: State, k: RedisObj, f: DictFunc)
    requires Wf(s, f) && s.t0.Some?
    ensures |s.t0.value.buckets| > 0 && (Rehashing(s) ==> s.t1.Some? && |s.t1.value.buckets| > 0)
    ensures Lookup(s, k, f).Some? <==>
      || ChainFind(Bucket(s.t0.value, f.hashFunc(k)), k, f).Some?
      || (Rehashing(s) && ChainFind(Bucket(s.t1.value, f.hashFunc(k)), k, f).Some?)
  {
    PowerAtLeast8(|s.t0.value.buckets|);
    if Rehashing(s) {
      PowerAtLeast8(|s.t1.value.buckets|);
    }
  }

  /** The table new entries go to: the second while rehashing, else the first. */
  function Target(s: State): Table
    requires s.t0.Some? && (Rehashing(s) ==> s.t1.Some?)
  {
    if Rehashing(s) then s.t1.value else s.t0.value
  }

  /**
   * DictKeyIndex: dictExpandIfNeeded first; -1 when it fails or when either
   * searched table already holds the key; otherwise the bucket of the key in
   * the table new entries go to.
   */
  function KeyIndex(s: State, k: RedisObj, f: DictFunc): (r: (State, int))
    requires Wf(s, f)
    ensures r.1 != -1 ==> r.0.t0.Some? && (Rehashing(r.0) ==> r.0.t1.Some?) && 0 <= r.1 < |Target(r.0).buckets|
  {
    ExpandIfNeededFails(s, f);
    var (s1, err) := ExpandIfNeeded(s, f);
    if err.Some? then (s1, -1)
    else if Lookup(s1, k, f).Some? then (s1, -1)
    else
      PowerAtLeast8(|Target(s1).buckets|);
      (s1, Slot(f.hashFunc(k), |Target(s1).buckets|))
  }

  /** The key index is -1 exactly when the key is present or growth is due; the entries are kept. */
  lemma KeyIndexSpec(s: State, k: RedisObj, f: DictFunc)
    requires Wf(s, f) && Sound(f, Keys(Content(s)) + {k})
    ensures Wf(KeyIndex(s, k, f).0, f) && Content(KeyIndex(s, k, f).0) == Content(s)
    ensures KeyIndex(s, k, f).1 == -1 <==> HasKey(Content(s), k, f) || GrowthDue(s)
    ensures KeyIndex(s, k, f).1 != -1 ==> KeyIndex(s, k, f).1 == Slot(f.hashFunc(k), |Target(KeyIndex(s, k, f).0).buckets|)
  {
    ExpandIfNeededFails(s, f);
    var (s1, err) := ExpandIfNeeded(s, f);
    if err.None? {
      LookupComplete(s1, k, f);
    }
  }

  /** DictAddRaw's splice: the entry becomes the head of bucket idx of the target table, whose `used` rises by one. */
  function Insert(s: State, idx: int, e: DictEntry): State
    requires s.t0.Some? && (Rehashing(s) ==> s.t1.Some?) && 0 <= idx < |Target(s).buckets|
  {
    var t := Target(s);
    var t' := Table(t.buckets[idx := [e] + t.buckets[idx]], t.used + 1);
    if Rehashing(s) then s.(t1 := Some(t')) else s.(t0 := Some(t'))
  }

  /** Prepending an entry to the bucket its key hashes to keeps a table well formed. */
  lemma InsertTableOk(t: Table, e: DictEntry, f: DictFunc)
    requires TableOk(t, f)
    ensures |t.buckets| > 0
    ensures var idx := Slot(f.hashFunc(e.key), |t.buckets|);
      var t' := Table(t.buckets[idx := [e] + t.buckets[idx]], t.used + 1);
      TableOk(t', f) && Bag(t'.buckets) == Bag(t.buckets) + multiset{e}
  {
    PowerAtLeast8(|t.buckets|);
    var idx := Slot(f.hashFunc(e.key), |t.buckets|);
    var bs := t.buckets[idx := [e] + t.buckets[idx]];
    BagPrepend(t.buckets, idx, e);
    forall b, x: DictEntry | 0 <= b < |bs| && x in bs[b]
      ensures Slot(f.hashFunc(x.key), |bs|) == b
    {
      if b == idx && x != e {
        assert x in t.buckets[idx];
      }
    }
  }

  /** Adding an entry that is new and whose key is absent keeps keys unique. */
  lemma UniqueAdd(m: multiset<DictEntry>, e: DictEntry, f: DictFunc)
    requires Unique(m, f) && e !in m && !HasKey(m, e.key, f) && Sound(f, Keys(m) + {e.key})
    ensures Unique(m + multiset{e}, f)
  {
    var m' := m + multiset{e};
    forall e1, e2 | e1 in m' && e2 in m' && e1 != e2
      ensures !f.equalFunc(e1.key, e2.key)
    {
      if e1 == e {
        assert e2.key in Keys(m);
      }
    }
  }

  /** An entry whose key is reflexively equal to itself is absent when no key equals it. */
  lemma AbsentKeyAbsentEntry(m: multiset<DictEntry>, e: DictEntry, f: DictFunc)
    requires !HasKey(m, e.key, f) && f.equalFunc(e.key, e.key)
    ensures e !in m
  {
  }

  /** Inserting a new entry at its key's bucket in the target table keeps the invariant and adds exactly that entry. */
  lemma InsertKeeps(s: State, e: DictEntry, f: DictFunc)
    requires Inv(s, f) && s.t0.Some?
    requires !HasKey(Content(s), e.key, f) && Sound(f, Keys(Content(s)) + {e.key})
    ensures |Target(s).buckets| > 0
    ensures var s' := Insert(s, Slot(f.hashFunc(e.key), |Target(s).buckets|), e);
      Inv(s', f) && Content(s') == Content(s) + multiset{e}
  {
    InsertTableOk(Target(s), e, f);
    AbsentKeyAbsentEntry(Content(s), e, f);
    UniqueAdd(Content(s), e, f);
    var s' := Insert(s, Slot(f.hashFunc(e.key), |Target(s).buckets|), e);
    assert Content(s') == Content(s) + multiset{e};
  }

  /**
   * DictAddRaw on a new entry e: one rehash step, then DictKeyIndex for e's
   * key; on success e is spliced in. The result says whether it was.
   */
  function AddRaw(s: State, e: DictEntry, f: DictFunc): (State, bool)
    requires Wf(s, f)
  {
    var s1 := RehashStep(s, f);
    var (s2, idx) := KeyIndex(s1, e.key, f);
    if idx == -1 then (s2, false) else (Insert(s2, idx, e), true)
  }

  /**
   * DictAddRaw keeps the invariant; it adds exactly the new entry when it
   * succeeds and changes no entry when it fails, and it fails exactly when
   * the key is present or growth is due after the rehash step.
   */
  lemma AddRawSpec(s: State, e: DictEntry, f: DictFunc)
    requires Inv(s, f) && Sound(f, Keys(Content(s)) + {e.key})
    ensures Inv(AddRaw(s, e, f).0, f)
    ensures AddRaw(s, e, f).1 ==> Content(AddRaw(s, e, f).0) == Content(s) + multiset{e}
    ensures !AddRaw(s, e, f).1 ==> Content(AddRaw(s, e, f).0) == Content(s)
    ensures !AddRaw(s, e, f).1 <==> HasKey(Content(s), e.key, f) || GrowthDue(RehashStep(s, f))
  {
    var s1 := RehashStep(s, f);
    KeyIndexSpec(s1, e.key, f);
    var (s2, idx) := KeyIndex(s1, e.key, f);
    if idx != -1 {
      InsertKeeps(s2, e, f);
    }
  }

  lemma KeysAdd(m: multiset<DictEntry>, e: DictEntry)
    ensures Keys(m + multiset{e}) == Keys(m) + {e.key}
  {
  }

  /** After a successful DictAddRaw, DictFind on the key finds the new entry. */
  lemma AddThenFind(s: State, e: DictEntry, f: DictFunc)
    requires Inv(s, f) && Sound(f, Keys(Content(s)) + {e.key})
    requires AddRaw(s, e, f).1
    ensures Wf(AddRaw(s, e, f).0, f) && AddRaw(s, e, f).0.t0.Some?
      && Lookup(AddRaw(s, e, f).0, e.key, f) == Some(e)
  {
    AddRawSpec(s, e, f);
    var s1 := RehashStep(s, f);
    KeyIndexSpec(s1, e.key, f);
    var s' := AddRaw(s, e, f).0;
    assert s'.t0.Some?;
    KeysAdd(Content(s), e);
    LookupUnique(s', e.key, f, e);
  }

  /**
   * A successful DictAddRaw in one piece: where DictKeyIndex gives a slot,
   * the entry is prepended there, the invariant holds, exactly the entry is
   * added, DictFind finds it, and the key was new with no growth due.
   */
  lemma AddRawInserts(s: State, s2: State, e: DictEntry, idx: int, f: DictFunc)
    requires Inv(s, f) && Sound(f, Keys(Content(s)) + {e.key})
    requires Wf(RehashStep(s, f), f) && KeyIndex(RehashStep(s, f), e.key, f) == (s2, idx) && idx != -1
    ensures s2.t0.Some? && (Rehashing(s2) ==> s2.t1.Some?) && 0 <= idx < |Target(s2).buckets|
    ensures var s' := Insert(s2, idx, e);
      && AddRaw(s, e, f) == (s', true)
      && Inv(s', f) && s'.t0.Some? && Lookup(s', e.key, f) == Some(e)
      && Content(s') == Content(s) + multiset{e}
      && !HasKey(Content(s), e.key, f) && !GrowthDue(RehashStep(s, f))
  {
    AddRawSpec(s, e, f);
    AddThenFind(s, e, f);
  }

  // ---------------------------------------------------------------------
  // Deletion (DictDelete)

  /**
   * The search-and-unlink of DictDelete in one table: the first entry of the
   * key's bucket whose key matches is cut out of the chain and `used` drops
   * by one; with no match the table is unchanged.
   */
  function DeleteIn(t: Table, k: RedisObj, f: DictFunc): (Table, Option<DictEntry>)
    requires |t.buckets| > 0
  {
    var b := Slot(f.hashFunc(k), |t.buckets|);
    var c := t.buckets[b];
    var j := ChainIndex(c, k, f);
    if j < |c| then (Table(t.buckets[b := c[..j] + c[j + 1..]], t.used - 1), Some(c[j]))
    else (t, None)
  }

  /** Removing one position of a bucket removes exactly that entry from the bag. */
  lemma BagRemove(bs: seq<seq<DictEntry>>, b: int, j: int)
    requires 0 <= b < |bs| && 0 <= j < |bs[b]|
    ensures Bag(bs[b := bs[b][..j] + bs[b][j + 1..]]) + multiset{bs[b][j]} == Bag(bs)
  {
    var c := bs[b];
    var c' := c[..j] + c[j + 1..];
    ChainCut(c, j);
    BagUpdate(bs, b, c');
    var before, after := Bag(bs), Bag(bs[b := c']);
    assert after + multiset{c[j]} + multiset(c') == before + multiset(c');
    MultisetCancel(after + multiset{c[j]}, before, multiset(c'));
  }

  /** Cutting position j out of a chain removes exactly that entry from its multiset. */
  lemma ChainCut(c: seq<DictEntry>, j: int)
    requires 0 <= j < |c|
    ensures multiset(c) == multiset(c[..j] + c[j + 1..]) + multiset{c[j]}
  {
    assert c == c[..j] + [c[j]] + c[j + 1..];
  }

  /** The one-table deletion keeps the table well formed and finds what Lookup's chain search finds. */
  lemma DeleteInOk(t: Table, k: RedisObj, f: DictFunc)
    requires TableOk(t, f)
    ensures |t.buckets| > 0
    ensures TableOk(DeleteIn(t, k, f).0, f)
    ensures DeleteIn(t, k, f).1 == ChainFind(Bucket(t, f.hashFunc(k)), k, f)
    ensures DeleteIn(t, k, f).1.Some? ==> Bag(DeleteIn(t, k, f).0.buckets) + multiset{DeleteIn(t, k, f).1.value} == Bag(t.buckets)
    ensures DeleteIn(t, k, f).1.None? ==> DeleteIn(t, k, f).0 == t
    ensures forall i | 0 <= i < |t.buckets| && t.buckets[i] == [] :: DeleteIn(t, k, f).0.buckets[i] == []
  {
    PowerAtLeast8(|t.buckets|);
    var b := Slot(f.hashFunc(k), |t.buckets|);
    var c := t.buckets[b];
    var j := ChainIndex(c, k, f);
    var r := DeleteIn(t, k, f);
    assert c == Bucket(t, f.hashFunc(k));
    if j < |c| {
      var t' := Table(t.buckets[b := c[..j] + c[j + 1..]], t.used - 1);
      assert r == (t', Some(c[j]));
      ChainRemoveOk(t, b, j, f);
    } else {
      assert r == (t, None);
    }
  }

  /** Cutting position j out of bucket b keeps the table well formed and takes one entry out of its bag. */
  lemma ChainRemoveOk(t: Table, b: int, j: int, f: DictFunc)
    requires TableOk(t, f) && 0 <= b < |t.buckets| && 0 <= j < |t.buckets[b]|
    ensures var c := t.buckets[b];
      var t' := Table(t.buckets[b := c[..j] + c[j + 1..]], t.used - 1);
      && TableOk(t', f)
      && Bag(t'.buckets) + multiset{c[j]} == Bag(t.buckets)
      && forall i | 0 <= i < |t.buckets| && t.buckets[i] == [] :: t'.buckets[i] == []
  {
    var c := t.buckets[b];
    var bs := t.buckets[b := c[..j] + c[j + 1..]];
    BagRemove(t.buckets, b, j);
    forall i, x: DictEntry | 0 <= i < |bs| && x in bs[i]
      ensures Slot(f.hashFunc(x.key), |bs|) == i
    {
      if i == b {
        assert x in c;
      }
    }
  }

  /**
   * The search of DictDelete once the rehash step is done: the first table's
   * bucket for the key and, only while rehashing, the second table's. The
   * result is the unlinked entry, or None for NK_ERR.
   */
  function DeleteFrom(s: State, k: RedisObj, f: DictFunc): (State, Option<DictEntry>)
    requires Wf(s, f) && s.t0.Some?
  {
    var (s0, r0) := DeleteAt(s, 0, k, f);
    if r0.Some? then (s0, r0)
    else if !Rehashing(s) then (s, None)
    else DeleteAt(s, 1, k, f)
  }

  /** One pass of DictDelete's table loop: the search and unlink in table i (0 or 1). */
  function DeleteAt(s: State, i: int, k: RedisObj, f: DictFunc): (r: (State, Option<DictEntry>))
    requires Wf(s, f) && s.t0.Some? && (i == 0 || (i == 1 && s.t1.Some?))
    ensures r.1.None? ==> r.0 == s
  {
    var t := if i == 0 then s.t0.value else s.t1.value;
    PowerAtLeast8(|t.buckets|);
    var (t', r) := DeleteIn(t, k, f);
    (if i == 0 then s.(t0 := Some(t')) else s.(t1 := Some(t')), r)
  }

  /** DictDelete: NK_ERR with no table; otherwise one rehash step, then the search and unlink. */
  function Delete(s: State, k: RedisObj, f: DictFunc): (State, Option<DictEntry>)
    requires Wf(s, f)
  {
    if s.t0.None? then (s, None)
    else DeleteFrom(RehashStep(s, f), k, f)
  }

  /** Taking one entry whose key equals k out of a dictionary with unique keys leaves no key equal to k. */
  lemma RemovedKeeps(s: State, s': State, e: DictEntry, k: RedisObj, f: DictFunc)
    requires Inv(s, f) && s.t0.Some? && Wf(s', f) && Sound(f, Keys(Content(s)) + {k})
    requires e in Content(s) && f.equalFunc(e.key, k) && Content(s') + multiset{e} == Content(s)
    ensures Inv(s', f) && Content(s') == Content(s) - multiset{e} && !HasKey(Content(s'), k, f)
  {
    assert Content(s') == Content(s) - multiset{e};
    UniqueRemove(Content(s), e, k, f);
  }

  /** In a bag with unique keys, the one entry whose key equals k is the only one. */
  lemma UniqueRemove(m: multiset<DictEntry>, e: DictEntry, k: RedisObj, f: DictFunc)
    requires Unique(m, f) && Sound(f, Keys(m) + {k})
    requires e in m && f.equalFunc(e.key, k)
    ensures Unique(m - multiset{e}, f) && !HasKey(m - multiset{e}, k, f)
  {
    var m' := m - multiset{e};
    assert m'[e] == 0;
    forall x | x in m'
      ensures m'[x] == 1 && !f.equalFunc(x.key, k)
    {
      assert m[x] == m'[x] + (if x == e then 1 else 0);
      var xk, ek := x.key, e.key;
      assert xk in Keys(m) && ek in Keys(m);
      assert f.equalFunc(k, ek);
      assert f.equalFunc(xk, k) ==> f.equalFunc(xk, ek);
    }
  }

  /** DeleteFrom when the first table holds the key. */
  lemma DeleteFromFirst(s: State, k: RedisObj, f: DictFunc)
    requires Inv(s, f) && s.t0.Some? && Sound(f, Keys(Content(s)) + {k})
    requires DeleteIn(s.t0.value, k, f).1.Some?
    ensures var (s', r) := DeleteFrom(s, k, f);
      && r.Some? && r.value in Content(s) && f.equalFunc(r.value.key, k)
      && Inv(s', f) && Content(s') == Content(s) - multiset{r.value} && !HasKey(Content(s'), k, f)
  {
    var t0 := s.t0.value;
    DeleteInOk(t0, k, f);
    var (t0', r0) := DeleteIn(t0, k, f);
    var s' := s.(t0 := Some(t0'));
    assert Content(s') + multiset{r0.value} == Content(s);
    assert Wf(s', f);
    RemovedKeeps(s, s', r0.value, k, f);
  }

  /** DeleteFrom when only the second table can hold the key. */
  lemma DeleteFromSecond(s: State, k: RedisObj, f: DictFunc)
    requires Inv(s, f) && s.t0.Some? && Sound(f, Keys(Content(s)) + {k})
    requires DeleteIn(s.t0.value, k, f).1.None? && Rehashing(s)
    requires DeleteIn(s.t1.value, k, f).1.Some?
    ensures var (s', r) := DeleteFrom(s, k, f);
      && r.Some? && r.value in Content(s) && f.equalFunc(r.value.key, k)
      && Inv(s', f) && Content(s') == Content(s) - multiset{r.value} && !HasKey(Content(s'), k, f)
  {
    var t1 := s.t1.value;
    DeleteInOk(t1, k, f);
    var (t1', r1) := DeleteIn(t1, k, f);
    var s' := s.(t1 := Some(t1'));
    assert Content(s') + multiset{r1.value} == Content(s);
    assert Wf(s', f);
    RemovedKeeps(s, s', r1.value, k, f);
  }

  /**
   * DeleteFrom keeps the invariant; it fails exactly when no key equals k,
   * and otherwise removes exactly one entry, one whose key equals k;
   * afterwards no key equals k.
   */
  lemma DeleteFromSpec(s: State, k: RedisObj, f: DictFunc)
    requires Inv(s, f) && s.t0.Some? && Sound(f, Keys(Content(s)) + {k})
    ensures var (s', r) := DeleteFrom(s, k, f);
      && Inv(s', f)
      && (r.None? <==> !HasKey(Content(s), k, f))
      && (r.None? ==> s' == s)
      && (r.Some? ==> r.value in Content(s) && f.equalFunc(r.value.key, k) && Content(s') == Content(s) - multiset{r.value})
      && !HasKey(Content(s'), k, f)
  {
    LookupComplete(s, k, f);
    DeleteInOk(s.t0.value, k, f);
    if DeleteIn(s.t0.value, k, f).1.Some? {
      DeleteFromFirst(s, k, f);
    } else if Rehashing(s) {
      DeleteInOk(s.t1.value, k, f);
      if DeleteIn(s.t1.value, k, f).1.Some? {
        DeleteFromSecond(s, k, f);
      }
    }
  }

  /**
   * DictDelete keeps the invariant; it fails with NK_ERR exactly when no key
   * equals k, and otherwise removes exactly one entry, one whose key equals
   * k; afterwards no key equals k.
   */
  lemma DeleteSpec(s: State, k: RedisObj, f: DictFunc)
    requires Inv(s, f) && Sound(f, Keys(Content(s)) + {k})
    ensures var (s', r) := Delete(s, k, f);
      && Inv(s', f)
      && (r.None? <==> !HasKey(Content(s), k, f))
      && (r.None? ==> Content(s') == Content(s))
      && (r.Some? ==> r.value in Content(s) && f.equalFunc(r.value.key, k) && Content(s') == Content(s) - multiset{r.value})
      && !HasKey(Content(s'), k, f)
  {
    if s.t0.Some? {
      DeleteFromSpec(RehashStep(s, f), k, f);
    }
  }

  /** DictDelete unlinks exactly the entry DictFind would have returned before the call. */
  lemma DeleteTakesFound(s: State, k: RedisObj, f: DictFunc)
    requires Inv(s, f) && s.t0.Some? && Sound(f, Keys(Content(s)) + {k})
    ensures Delete(s, k, f).1 == Lookup(s, k, f)
  {
    DeleteSpec(s, k, f);
    LookupComplete(s, k, f);
    if Delete(s, k, f).1.Some? {
      LookupUnique(s, k, f, Delete(s, k, f).1.value);
    }
  }

  // ---------------------------------------------------------------------
  // Random entries (DictGetRandomKey)

  /**
   * The buckets DictGetRandomKey draws from: those of the first table, then,
   * while rehashing, those of the second, as one range of positions.
   */
  function Slots(s: State, f: DictFunc): seq<seq<DictEntry>>
    requires Wf(s, f) && s.t0.Some?
  {
    if Rehashing(s) then s.t0.value.buckets + s.t1.value.buckets else s.t0.value.buckets
  }

  /** Every drawn chain holds entries of the dictionary, and a dictionary with entries has a chain to draw. */
  lemma SlotsHoldContent(s: State, f: DictFunc)
    requires Wf(s, f) && s.t0.Some?
    ensures forall h, e | 0 <= h < |Slots(s, f)| && e in Slots(s, f)[h] :: e in Content(s)
    ensures |Content(s)| > 0 ==> exists h | 0 <= h < |Slots(s, f)| :: Slots(s, f)[h] != []
  {
    var sl := Slots(s, f);
    var b0 := s.t0.value.buckets;
    forall h, e | 0 <= h < |sl| && e in sl[h]
      ensures e in Content(s)
    {
      if h < |b0| {
        BagMember(b0, e);
      } else {
        BagMember(s.t1.value.buckets, e);
        assert e in s.t1.value.buckets[h - |b0|];
      }
    }
    if |Content(s)| > 0 {
      var e :| e in Content(s);
      if e in Bag(b0) {
        BagMember(b0, e);
        var b :| 0 <= b < |b0| && e in b0[b];
        assert sl[b] == b0[b];
      } else {
        var b1 := s.t1.value.buckets;
        BagMember(b1, e);
        var b :| 0 <= b < |b1| && e in b1[b];
        assert sl[|b0| + b] == b1[b];
      }
    }
  }

  // ---------------------------------------------------------------------
  // Automatic growth: as written, and as the tests expect it

  /**
   * As written, automatic growth never happens: on a table of 8 buckets
   * holding 24 entries, not rehashing, DictAddRaw of a new entry with a new
   * key fails (and DictAdd returns EX_ERR).
   */
  lemma GrowthBlocksAdd(s: State, e: DictEntry, f: DictFunc)
    requires Inv(s, f) && !Rehashing(s) && s.t0.Some?
    requires |s.t0.value.buckets| == DICT_HT_INITIAL_SIZE && s.t0.value.used == 24
    requires !HasKey(Content(s), e.key, f) && Sound(f, Keys(Content(s)) + {e.key})
    ensures !AddRaw(s, e, f).1
  {
    assert GrowthDue(s);
    AddRawSpec(s, e, f);
  }

  /**
   * As written, DictSet on a new key while growth is due reaches a nil entry:
   * DictAdd is refused, and DictFind on what it leaves finds nothing.
   */
  lemma SetAfterRefusedGrowth(s: State, e: DictEntry, f: DictFunc)
    requires Inv(s, f) && Sound(f, Keys(Content(s)) + {e.key})
    requires !HasKey(Content(s), e.key, f) && GrowthDue(RehashStep(s, f))
    ensures !AddRaw(s, e, f).1
    ensures Wf(AddRaw(s, e, f).0, f) && Find(AddRaw(s, e, f).0, e.key, f).1.None?
  {
    AddRawSpec(s, e, f);
    FindSpec(AddRaw(s, e, f).0, e.key, f);
  }

  /**
   * As written, DictGetRandomKey on a dictionary whose tables exist but hold
   * no entry never returns: after the rehash step every bucket it can draw is
   * empty, so its draw is repeated forever.
   */
  lemma EmptyDrawsNothing(s: State, f: DictFunc)
    requires Wf(s, f) && s.t0.Some? && Content(s) == multiset{}
    ensures var r := RehashStep(s, f);
      r.t0.Some? && forall h | 0 <= h < |Slots(r, f)| :: Slots(r, f)[h] == []
  {
    var r := RehashStep(s, f);
    SlotsHoldContent(r, f);
    var b0 := r.t0.value.buckets;
    forall h | 0 <= h < |Slots(r, f)|
      ensures Slots(r, f)[h] == []
    {
      if !Rehashing(r) || h < |b0| {
        BucketInBag(b0, h);
      } else {
        BucketInBag(r.t1.value.buckets, h - |b0|);
      }
      assert |multiset(Slots(r, f)[h])| == 0;
    }
  }

  /**
   * dictExpandIfNeeded as the tests expect it: when growth is due, rehashing
   * starts into an empty table of size * DICT_HT_GROW_RATIO buckets. A table
   * of 2^62 buckets cannot grow within int64 sizes and is left as it is.
   */
  function ExpandIfNeededFixed(s: State, f: DictFunc): (State, Option<DictError>)
    requires Wf(s, f)
  {
    if GrowthDue(s) then
      var size := |s.t0.value.buckets|;
      if size < POW62 then (State(s.t0, Some(EmptyTable(size * DICT_HT_GROW_RATIO)), 0), None)
      else (s, Some(EpErr))
    else ExpandIfNeeded(s, f)
  }

  /**
   * With the corrected growth, a due growth succeeds: the entries and the
   * invariant are kept, rehashing starts at bucket 0 into a table twice the
   * size, and a new entry with a new key can then be inserted at its key's
   * bucket of that table.
   */
  lemma FixedGrowthStartsRehash(s: State, e: DictEntry, f: DictFunc)
    requires Inv(s, f) && GrowthDue(s) && |s.t0.value.buckets| < POW62
    requires !HasKey(Content(s), e.key, f) && Sound(f, Keys(Content(s)) + {e.key})
    ensures var (r, err) := ExpandIfNeededFixed(s, f);
      && err.None? && Inv(r, f) && Content(r) == Content(s)
      && Rehashing(r) && r.rehashIdx == 0 && r.t0 == s.t0
      && |r.t1.value.buckets| == 2 * |s.t0.value.buckets|
      && |Target(r).buckets| > 0
      && var r' := Insert(r, Slot(f.hashFunc(e.key), |Target(r).buckets|), e);
         Inv(r', f) && Content(r') == Content(s) + multiset{e}
  {
    var size := |s.t0.value.buckets|;
    NextPowerStep(size, POW62);
    var t := EmptyTable(size * 2);
    BagOfEmpty(t.buckets);
    var r := State(s.t0, Some(t), 0);
    assert ExpandIfNeededFixed(s, f) == (r, None);
    assert TableOk(t, f);
    assert Content(r) == Content(s);
    assert Inv(r, f);
    InsertKeeps(r, e, f);
  }
}
