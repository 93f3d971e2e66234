/**
 * The event loop of ae.go: file events keyed by a signed descriptor key, the
 * epoll interest masks derived from them, a list of timers (newest first), and
 * the bookkeeping of one wait/process round. The epoll syscalls, the clock and
 * the callbacks are outside the model: a syscall's outcome is a parameter, a
 * clock reading is a parameter, and a callback invocation is recorded in a
 * trace.
 */
module Ae {
  import opened Optional

  datatype FeType = Readable | Writable
  datatype TeType = Normal | Once

  /** A registered file event (the callback and its data are not modelled). */
  datatype FileEvent = FileEvent(fd: int, mask: FeType)

  /** A timer; `when` and `duration` are in milliseconds. */
  datatype TimeEvent = TimeEvent(id: int, mask: TeType, when: int, duration: int)

  /** An epoll_ctl request the loop issues. */
  datatype CtlOp = CtlAdd | CtlMod | CtlDel
  datatype CtlCall = CtlCall(op: CtlOp, fd: int, events: bv32)

  /** One readiness report returned by epoll_wait. */
  datatype EpollEvent = EpollEvent(events: bv32, fd: int)

  /** A callback the loop invokes. */
  datatype Callback = TimeProc(id: int) | FileProc(fd: int, mask: FeType)

  const EPOLLIN: bv32 := 0x1
  const EPOLLOUT: bv32 := 0x4

  /** The map key of a file event: fd for readable, -fd for writable. */
  function FeKey(fd: int, mask: FeType): int
  {
    if mask == Readable then fd else -fd
  }

  /** Two registrations share a key exactly when they are the same, or are opposite kinds on opposite descriptors. */
  lemma FeKeyCollision(fd1: int, m1: FeType, fd2: int, m2: FeType)
    ensures FeKey(fd1, m1) == FeKey(fd2, m2) <==>
      (m1 == m2 && fd1 == fd2) || (m1 != m2 && fd1 == -fd2)
  {
  }

  /** On non-negative descriptors, descriptor 0 is the only place where the readable and writable keys meet. */
  lemma FdZeroSharesKey(fd1: int, m1: FeType, fd2: int, m2: FeType)
    requires fd1 >= 0 && fd2 >= 0 && (fd1, m1) != (fd2, m2)
    requires FeKey(fd1, m1) == FeKey(fd2, m2)
    ensures fd1 == 0 && fd2 == 0
  {
    FeKeyCollision(fd1, m1, fd2, m2);
  }

  /**
   * A file event key as the table needs it, apart for the two kinds on every
   * descriptor including 0: 2 * fd for readable, 2 * fd + 1 for writable.
   */
  function FeKeyFixed(fd: int, mask: FeType): int
  {
    if mask == Readable then 2 * fd else 2 * fd + 1
  }

  /** The corrected key is injective: two registrations share a key only when they are the same. */
  lemma FeKeyFixedInjective(fd1: int, m1: FeType, fd2: int, m2: FeType)
    ensures FeKeyFixed(fd1, m1) == FeKeyFixed(fd2, m2) <==> fd1 == fd2 && m1 == m2
  {
  }

  /** The epoll bit a file event kind maps to. */
  function Fe2Ep(mask: FeType): bv32
  {
    match mask
    case Readable => EPOLLIN
    case Writable => EPOLLOUT
  }

  /** getEpollMask: the interest set of fd as recorded in the file event table. */
  function MaskOf(fes: map<int, FileEvent>, fd: int): (ev: bv32)
    ensures ev & EPOLLIN != 0 <==> FeKey(fd, Readable) in fes
    ensures ev & EPOLLOUT != 0 <==> FeKey(fd, Writable) in fes
    ensures ev & !(EPOLLIN | EPOLLOUT) == 0
  {
    (if FeKey(fd, Readable) in fes then EPOLLIN else 0)
    | (if FeKey(fd, Writable) in fes then EPOLLOUT else 0)
  }

  /** Every entry sits under its own key. */
  ghost predicate KeysConsistent(fes: map<int, FileEvent>)
  {
    forall k | k in fes :: k == FeKey(fes[k].fd, fes[k].mask)
  }

  /** Timer ids strictly decrease from the head, so no id occurs twice. */
  ghost predicate Descending(tes: seq<TimeEvent>)
  {
    forall i, j | 0 <= i < j < |tes| :: tes[i].id > tes[j].id
  }

  /** No two timers in the sequence share an id. */
  ghost predicate DistinctIds(due: seq<TimeEvent>)
  {
    forall i, j | 0 <= i < j < |due| :: due[i].id != due[j].id
  }

  /** Timer ids are in [1, nextId) and strictly decrease from the head. */
  ghost predicate TimersOk(tes: seq<TimeEvent>, nextId: int)
  {
    && 1 <= nextId
    && (forall te | te in tes :: 1 <= te.id < nextId)
    && Descending(tes)
  }

  /** The ids of the timers in the list. */
  function Ids(tes: seq<TimeEvent>): set<int>
  {
    set te | te in tes :: te.id
  }

  /**
   * On a descriptor other than 0, registering one kind leaves the other kind's
   * bit as it was and sets its own; the events sent to epoll_ctl then agree
   * with the table.
   */
  lemma RegisterSetsBit(fes: map<int, FileEvent>, fd: int, mask: FeType)
    requires fd != 0
    ensures var after := fes[FeKey(fd, mask) := FileEvent(fd, mask)];
      MaskOf(after, fd) == MaskOf(fes, fd) | Fe2Ep(mask)
  {
    var after := fes[FeKey(fd, mask) := FileEvent(fd, mask)];
    var other := if mask == Readable then Writable else Readable;
    assert FeKey(fd, other) != FeKey(fd, mask);
    assert FeKey(fd, other) in after <==> FeKey(fd, other) in fes;
  }

  /** On a descriptor other than 0, unregistering one kind clears exactly its bit. */
  lemma UnregisterClearsBit(fes: map<int, FileEvent>, fd: int, mask: FeType)
    requires fd != 0
    ensures MaskOf(fes - {FeKey(fd, mask)}, fd) == MaskOf(fes, fd) & !Fe2Ep(mask)
  {
    var after := fes - {FeKey(fd, mask)};
    var other := if mask == Readable then Writable else Readable;
    assert FeKey(fd, other) != FeKey(fd, mask);
    assert FeKey(fd, other) in after <==> FeKey(fd, other) in fes;
    assert FeKey(fd, mask) !in after;
  }

  /**
   * On descriptor 0 the readable and writable keys coincide: once a readable
   * event is registered, the writable bit reads as set, so a later request for
   * a writable event on 0 is skipped.
   */
  lemma FdZeroCollision(fes: map<int, FileEvent>)
    requires FeKey(0, Readable) in fes
    ensures MaskOf(fes, 0) & Fe2Ep(Writable) != 0
  {
    assert FeKey(0, Writable) == FeKey(0, Readable);
  }

  /** nearestTime: the earliest `when` among the timers, capped by bound. */
  function Nearest(tes: seq<TimeEvent>, bound: int): (r: int)
    ensures r <= bound
    ensures forall i | 0 <= i < |tes| :: r <= tes[i].when
    ensures r == bound || exists i | 0 <= i < |tes| :: r == tes[i].when
  {
    if tes == [] then bound
    else Nearest(tes[1..], if tes[0].when < bound then tes[0].when else bound)
  }

  /** The timers due before now, in list order. */
  function DueTimers(tes: seq<TimeEvent>, now: int): (due: seq<TimeEvent>)
    ensures |due| <= |tes|
    ensures forall te :: te in due <==> te in tes && te.when < now
  {
    if tes == [] then []
    else
      var last := tes[|tes| - 1];
      DueTimers(tes[..|tes| - 1], now) + (if last.when < now then [last] else [])
  }

  /** A timer whose id is below every id of a descending list can be appended to it. */
  lemma DescendingAppend(d: seq<TimeEvent>, x: TimeEvent)
    requires Descending(d) && forall t | t in d :: t.id > x.id
    ensures Descending(d + [x])
  {
    var r := d + [x];
    forall i, j | 0 <= i < j < |r|
      ensures r[i].id > r[j].id
    {
      assert r[i] == d[i];
      if j == |d| {
        assert d[i] in d;
      }
    }
  }

  /** In a descending list, the last timer's id is below every earlier one. */
  lemma LastBelowPrefix(tes: seq<TimeEvent>)
    requires Descending(tes) && tes != []
    ensures Descending(tes[..|tes| - 1])
    ensures forall t | t in tes[..|tes| - 1] :: t.id > tes[|tes| - 1].id
  {
    var prefix := tes[..|tes| - 1];
    forall t | t in prefix
      ensures t.id > tes[|tes| - 1].id
    {
      var k :| 0 <= k < |prefix| && prefix[k] == t;
      assert tes[k] == t;
    }
  }

  /** The due timers of a list with descending ids keep that order, so their ids are distinct. */
  lemma {:induction false} DueDistinct(tes: seq<TimeEvent>, now: int)
    requires Descending(tes)
    ensures DistinctIds(DueTimers(tes, now))
    ensures Descending(DueTimers(tes, now))
  {
    if tes != [] {
      var n := |tes|;
      LastBelowPrefix(tes);
      DueDistinct(tes[..n - 1], now);
      if tes[n - 1].when < now {
        DescendingAppend(DueTimers(tes[..n - 1], now), tes[n - 1]);
      }
    }
  }

  /** The file events one readiness report selects: readable first, then writable. */
  function Collect(fes: map<int, FileEvent>, e: EpollEvent): seq<FileEvent>
  {
    (if e.events & EPOLLIN != 0 && FeKey(e.fd, Readable) in fes then [fes[FeKey(e.fd, Readable)]] else [])
    + (if e.events & EPOLLOUT != 0 && FeKey(e.fd, Writable) in fes then [fes[FeKey(e.fd, Writable)]] else [])
  }

  /** The file events selected by a batch of readiness reports, in report order. */
  function ReadyFiles(fes: map<int, FileEvent>, ready: seq<EpollEvent>): (sel: seq<FileEvent>)
    ensures |sel| <= 2 * |ready|
    ensures forall i | 0 <= i < |sel| :: sel[i] in fes.Values
  {
    if ready == [] then []
    else ReadyFiles(fes, ready[..|ready| - 1]) + Collect(fes, ready[|ready| - 1])
  }

  /** Every registered event whose bit is reported ready is selected. */
  lemma {:induction false} ReadyComplete(fes: map<int, FileEvent>, ready: seq<EpollEvent>, j: int, mask: FeType)
    requires 0 <= j < |ready|
    requires ready[j].events & Fe2Ep(mask) != 0 && FeKey(ready[j].fd, mask) in fes
    ensures fes[FeKey(ready[j].fd, mask)] in ReadyFiles(fes, ready)
  {
    var n := |ready|;
    if j == n - 1 {
      assert fes[FeKey(ready[j].fd, mask)] in Collect(fes, ready[j]);
    } else {
      assert ready[..n - 1][j] == ready[j];
      ReadyComplete(fes, ready[..n - 1], j, mask);
    }
  }

  /**
   * On descriptor 0 one readiness report for both directions selects the
   * entry under key 0 twice.
   */
  lemma FdZeroSelectedTwice(fes: map<int, FileEvent>)
    requires 0 in fes
    ensures ReadyFiles(fes, [EpollEvent(EPOLLIN | EPOLLOUT, 0)]) == [fes[0], fes[0]]
  {
    var r := [EpollEvent(EPOLLIN | EPOLLOUT, 0)];
    assert r[..0] == [];
    assert (EPOLLIN | EPOLLOUT) & EPOLLIN != 0 && (EPOLLIN | EPOLLOUT) & EPOLLOUT != 0;
  }

  /** AeDeleteTimeEvent: the first timer with this id is unlinked; nothing else changes. */
  function RemoveId(tes: seq<TimeEvent>, id: int): (r: seq<TimeEvent>)
    ensures forall te | te in r :: te in tes
    ensures (exists i | 0 <= i < |tes| :: tes[i].id == id) ==> |r| == |tes| - 1
    ensures (forall i | 0 <= i < |tes| :: tes[i].id != id) ==> r == tes
  {
    if tes == [] then []
    else if tes[0].id == id then tes[1..]
    else [tes[0]] + RemoveId(tes[1..], id)
  }

  /** Removing the first match at position i cuts exactly that element out. */
  lemma {:induction false} RemoveIdAt(tes: seq<TimeEvent>, i: int, id: int)
    requires 0 <= i < |tes| && tes[i].id == id
    requires forall j | 0 <= j < i :: tes[j].id != id
    ensures RemoveId(tes, id) == tes[..i] + tes[i + 1..]
  {
    if i > 0 {
      RemoveIdAt(tes[1..], i - 1, id);
      assert tes[1..][..i - 1] + tes[1..][i..] == tes[1..i] + tes[i + 1..];
      assert [tes[0]] + tes[1..i] == tes[..i];
    }
  }

  /** Removal keeps every timer with another id. */
  lemma {:induction false} RemoveIdKeeps(tes: seq<TimeEvent>, id: int)
    ensures forall te | te in tes && te.id != id :: te in RemoveId(tes, id)
  {
    if tes != [] && tes[0].id != id {
      RemoveIdKeeps(tes[1..], id);
      forall te | te in tes && te.id != id
        ensures te in RemoveId(tes, id)
      {
        if te != tes[0] {
          assert te in tes[1..];
        }
      }
    } else if tes != [] {
      forall te | te in tes && te.id != id
        ensures te in tes[1..]
      {
        assert te != tes[0];
      }
    }
  }

  /** The tail of a descending list is descending and below its head. */
  lemma DescendingTail(tes: seq<TimeEvent>)
    requires tes != [] && Descending(tes)
    ensures Descending(tes[1..])
    ensures forall te | te in tes[1..] :: te.id < tes[0].id
  {
    forall te | te in tes[1..]
      ensures te.id < tes[0].id
    {
      var j :| 0 <= j < |tes[1..]| && tes[1..][j] == te;
      assert tes[j + 1] == te;
    }
  }

  /** A timer above every id of a descending list can head it. */
  lemma ConsDescending(x: TimeEvent, rest: seq<TimeEvent>)
    requires Descending(rest) && forall te | te in rest :: te.id < x.id
    ensures Descending([x] + rest)
  {
    var r := [x] + rest;
    forall i, j | 0 <= i < j < |r|
      ensures r[i].id > r[j].id
    {
      assert r[j] == rest[j - 1];
      if i > 0 {
        assert r[i] == rest[i - 1];
      }
    }
  }

  /** With distinct ids, removal keeps exactly the timers with another id, and keeps them ordered. */
  lemma {:induction false} RemoveIdExact(tes: seq<TimeEvent>, id: int)
    requires Descending(tes)
    ensures Descending(RemoveId(tes, id))
    ensures forall te | te in RemoveId(tes, id) :: te.id != id
    ensures forall te | te in tes && te.id != id :: te in RemoveId(tes, id)
  {
    if tes != [] {
      DescendingTail(tes);
      RemoveIdExact(tes[1..], id);
      var rest := RemoveId(tes[1..], id);
      if tes[0].id != id {
        var r := [tes[0]] + rest;
        assert RemoveId(tes, id) == r;
        ConsDescending(tes[0], rest);
        forall te | te in tes && te.id != id
          ensures te in r
        {
          if te != tes[0] {
            assert te in tes[1..];
          }
        }
      } else {
        assert RemoveId(tes, id) == tes[1..];
        forall te | te in tes && te.id != id
          ensures te in tes[1..]
        {
          assert te != tes[0];
        }
      }
    }
  }

  /** Removal keeps the id invariant. */
  lemma RemoveIdOk(tes: seq<TimeEvent>, id: int, nextId: int)
    requires TimersOk(tes, nextId)
    ensures TimersOk(RemoveId(tes, id), nextId)
  {
    RemoveIdExact(tes, id);
  }

  /** The timer with this id gets the new `when`; all others are unchanged. */
  function SetWhen(tes: seq<TimeEvent>, id: int, when: int): (r: seq<TimeEvent>)
    ensures |r| == |tes|
    ensures forall i | 0 <= i < |tes| :: r[i] == if tes[i].id == id then tes[i].(when := when) else tes[i]
  {
    seq(|tes|, i requires 0 <= i < |tes| => if tes[i].id == id then tes[i].(when := when) else tes[i])
  }

  /** Rescheduling changes no id. */
  lemma SetWhenIds(tes: seq<TimeEvent>, id: int, when: int)
    ensures Ids(SetWhen(tes, id, when)) == Ids(tes)
    ensures forall te | te in tes && te.id != id :: te in SetWhen(tes, id, when)
  {
    var r := SetWhen(tes, id, when);
    forall x | x in Ids(r)
      ensures x in Ids(tes)
    {
      var te :| te in r && te.id == x;
      var i :| 0 <= i < |r| && r[i] == te;
      assert tes[i] in tes;
    }
    forall x | x in Ids(tes)
      ensures x in Ids(r)
    {
      var te :| te in tes && te.id == x;
      var i :| 0 <= i < |tes| && tes[i] == te;
      assert r[i] in r;
    }
    forall te | te in tes && te.id != id
      ensures te in r
    {
      var i :| 0 <= i < |tes| && tes[i] == te;
      assert r[i] == te;
    }
  }

  /** What AeProcessEvents does to the timer list for one due timer, given the clock at that moment. */
  function ApplyTimer(tes: seq<TimeEvent>, te: TimeEvent, now: int): seq<TimeEvent>
  {
    match te.mask
    case Normal => SetWhen(tes, te.id, now + te.duration)
    case Once => RemoveId(tes, te.id)
  }

  /** The timer list after processing the due timers in order; nows[i] is the clock when timer i ran. */
  function ProcessTimers(tes: seq<TimeEvent>, due: seq<TimeEvent>, nows: seq<int>): seq<TimeEvent>
    requires |nows| == |due|
  {
    if due == [] then tes
    else
      var n := |due|;
      ApplyTimer(ProcessTimers(tes, due[..n - 1], nows[..n - 1]), due[n - 1], nows[n - 1])
  }

  /** One step keeps every timer with another id. */
  lemma ApplyKeepsOthers(tes: seq<TimeEvent>, te: TimeEvent, now: int)
    ensures forall t | t in tes && t.id != te.id :: t in ApplyTimer(tes, te, now)
  {
    if te.mask == Once {
      RemoveIdKeeps(tes, te.id);
    } else {
      SetWhenIds(tes, te.id, now + te.duration);
    }
  }

  /**
   * One step keeps the id invariant and introduces no id, and a once-only
   * timer's id is gone afterwards.
   */
  lemma ApplyTimerKeeps(tes: seq<TimeEvent>, te: TimeEvent, now: int, nextId: int)
    requires TimersOk(tes, nextId)
    ensures TimersOk(ApplyTimer(tes, te, now), nextId)
    ensures Ids(ApplyTimer(tes, te, now)) <= Ids(tes)
    ensures te.mask == Once ==> te.id !in Ids(ApplyTimer(tes, te, now))
  {
    var r := ApplyTimer(tes, te, now);
    if te.mask == Once {
      RemoveIdExact(tes, te.id);
      forall x | x in Ids(r)
        ensures x in Ids(tes) && x != te.id
      {
        var t :| t in r && t.id == x;
        assert t in tes;
      }
    } else {
      SetWhenIds(tes, te.id, now + te.duration);
      forall i, j | 0 <= i < j < |r|
        ensures r[i].id > r[j].id
      {
        assert r[i].id == tes[i].id && r[j].id == tes[j].id;
      }
      forall t | t in r
        ensures 1 <= t.id < nextId
      {
        assert t.id in Ids(tes);
      }
    }
  }

  /** Processing keeps the id invariant and introduces no id. */
  lemma {:induction false} ProcessKeepsOk(tes: seq<TimeEvent>, due: seq<TimeEvent>, nows: seq<int>, nextId: int)
    requires |nows| == |due| && TimersOk(tes, nextId)
    ensures TimersOk(ProcessTimers(tes, due, nows), nextId)
    ensures Ids(ProcessTimers(tes, due, nows)) <= Ids(tes)
  {
    if due != [] {
      var n := |due|;
      var mid := ProcessTimers(tes, due[..n - 1], nows[..n - 1]);
      ProcessKeepsOk(tes, due[..n - 1], nows[..n - 1], nextId);
      ApplyTimerKeeps(mid, due[n - 1], nows[n - 1], nextId);
      ProcessLast(tes, due, nows);
    }
  }

  /** A timer whose id is not among the due timers' ids is still there, unchanged. */
  lemma {:induction false} ProcessKeepsOthers(tes: seq<TimeEvent>, due: seq<TimeEvent>, nows: seq<int>)
    requires |nows| == |due|
    ensures forall t | t in tes && t.id !in Ids(due) :: t in ProcessTimers(tes, due, nows)
  {
    if due != [] {
      var n := |due|;
      var prefix := due[..n - 1];
      ProcessKeepsOthers(tes, prefix, nows[..n - 1]);
      var mid := ProcessTimers(tes, prefix, nows[..n - 1]);
      ApplyKeepsOthers(mid, due[n - 1], nows[n - 1]);
      forall t | t in tes && t.id !in Ids(due)
        ensures t in ProcessTimers(tes, due, nows)
      {
        assert due[n - 1] in due;
      }
    }
  }

  /** A once-only timer that ran is gone afterwards. */
  lemma {:induction false} OnceTimersRemoved(tes: seq<TimeEvent>, due: seq<TimeEvent>, nows: seq<int>, nextId: int, i: int)
    requires |nows| == |due| && TimersOk(tes, nextId)
    requires 0 <= i < |due| && due[i].mask == Once
    ensures due[i].id !in Ids(ProcessTimers(tes, due, nows))
  {
    var n := |due|;
    var prefix := due[..n - 1];
    var mid := ProcessTimers(tes, prefix, nows[..n - 1]);
    ProcessLast(tes, due, nows);
    ProcessKeepsOk(tes, prefix, nows[..n - 1], nextId);
    ApplyTimerKeeps(mid, due[n - 1], nows[n - 1], nextId);
    if i < n - 1 {
      assert prefix[i] == due[i];
      OnceTimersRemoved(tes, prefix, nows[..n - 1], nextId, i);
    }
  }

  /** The last due timer is applied to what the others left. */
  lemma ProcessLast(tes: seq<TimeEvent>, due: seq<TimeEvent>, nows: seq<int>)
    requires |nows| == |due| && due != []
    ensures ProcessTimers(tes, due, nows)
      == ApplyTimer(ProcessTimers(tes, due[..|due| - 1], nows[..|due| - 1]), due[|due| - 1], nows[|due| - 1])
  {
  }

  /** A repeating timer in the list is, after its step, there with `when` set to duration ms after now. */
  lemma RescheduledInPlace(tes: seq<TimeEvent>, te: TimeEvent, now: int)
    requires te in tes && te.mask == Normal
    ensures te.(when := now + te.duration) in ApplyTimer(tes, te, now)
  {
    var k :| 0 <= k < |tes| && tes[k] == te;
    assert ApplyTimer(tes, te, now)[k] == te.(when := now + te.duration);
  }

  /** Dropping the last due timer keeps the ids distinct, and the dropped id is not among the rest. */
  lemma LastIdFresh(due: seq<TimeEvent>, tes: seq<TimeEvent>)
    requires due != [] && DistinctIds(due) && forall t | t in due :: t in tes
    ensures DistinctIds(due[..|due| - 1]) && forall t | t in due[..|due| - 1] :: t in tes
    ensures due[|due| - 1].id !in Ids(due[..|due| - 1])
  {
    var prefix := due[..|due| - 1];
    forall t | t in prefix
      ensures t.id != due[|due| - 1].id
    {
      var k :| 0 <= k < |prefix| && prefix[k] == t;
      assert due[k] == t;
    }
  }

  /** A timer left by the earlier due timers survives the last one when its id differs. */
  lemma KeptByLast(tes: seq<TimeEvent>, due: seq<TimeEvent>, nows: seq<int>, x: TimeEvent)
    requires |nows| == |due| && due != []
    requires x in ProcessTimers(tes, due[..|due| - 1], nows[..|due| - 1]) && x.id != due[|due| - 1].id
    ensures x in ProcessTimers(tes, due, nows)
  {
    var n := |due|;
    ProcessLast(tes, due, nows);
    ApplyKeepsOthers(ProcessTimers(tes, due[..n - 1], nows[..n - 1]), due[n - 1], nows[n - 1]);
  }

  /** The last due timer, when repeating and taken from the list, is rescheduled by its own step. */
  lemma LastRescheduled(tes: seq<TimeEvent>, due: seq<TimeEvent>, nows: seq<int>)
    requires |nows| == |due| && due != []
    requires (forall t | t in due :: t in tes) && DistinctIds(due) && due[|due| - 1].mask == Normal
    ensures var last := due[|due| - 1];
      last.(when := nows[|due| - 1] + last.duration) in ProcessTimers(tes, due, nows)
  {
    var n := |due|;
    var last := due[n - 1];
    var mid := ProcessTimers(tes, due[..n - 1], nows[..n - 1]);
    ProcessLast(tes, due, nows);
    assert last in mid by {
      assert last in due;
      LastIdFresh(due, tes);
      ProcessKeepsOthers(tes, due[..n - 1], nows[..n - 1]);
    }
    RescheduledInPlace(mid, last, nows[n - 1]);
  }

  /**
   * A repeating timer that ran, taken from the list with the other due timers,
   * is afterwards in the list with `when` set to duration ms after the clock
   * reading taken when it ran.
   */
  lemma {:induction false} NormalRescheduled(tes: seq<TimeEvent>, due: seq<TimeEvent>, nows: seq<int>, i: int)
    requires |nows| == |due|
    requires (forall t | t in due :: t in tes) && DistinctIds(due)
    requires 0 <= i < |due| && due[i].mask == Normal
    ensures due[i].(when := nows[i] + due[i].duration) in ProcessTimers(tes, due, nows)
  {
    var n := |due|;
    if i < n - 1 {
      var prefix, pn := due[..n - 1], nows[..n - 1];
      var x := due[i].(when := nows[i] + due[i].duration);
      assert x in ProcessTimers(tes, prefix, pn) by {
        assert prefix[i] == due[i] && pn[i] == nows[i];
        LastIdFresh(due, tes);
        NormalRescheduled(tes, prefix, pn, i);
      }
      KeptByLast(tes, due, nows, x);
    } else {
      LastRescheduled(tes, due, nows);
    }
  }

  /** What AeProcessEvents promises about each due timer: a repeating one is rescheduled, a once-only one is gone. */
  lemma ProcessOutcome(tes: seq<TimeEvent>, due: seq<TimeEvent>, nows: seq<int>, nextId: int)
    requires |nows| == |due| && TimersOk(tes, nextId)
    requires (forall t | t in due :: t in tes) && DistinctIds(due)
    ensures forall i | 0 <= i < |due| && due[i].mask == Normal ::
      due[i].(when := nows[i] + due[i].duration) in ProcessTimers(tes, due, nows)
    ensures forall i | 0 <= i < |due| && due[i].mask == Once :: due[i].id !in Ids(ProcessTimers(tes, due, nows))
  {
    forall i | 0 <= i < |due| && due[i].mask == Normal
      ensures due[i].(when := nows[i] + due[i].duration) in ProcessTimers(tes, due, nows)
    {
      NormalRescheduled(tes, due, nows, i);
    }
    forall i | 0 <= i < |due| && due[i].mask == Once
      ensures due[i].id !in Ids(ProcessTimers(tes, due, nows))
    {
      OnceTimersRemoved(tes, due, nows, nextId, i);
    }
  }

  /** The callbacks of the due timers, in order. */
  function TimerTrace(due: seq<TimeEvent>): (tr: seq<Callback>)
    ensures |tr| == |due| && forall i | 0 <= i < |due| :: tr[i] == TimeProc(due[i].id)
  {
    if due == [] then [] else TimerTrace(due[..|due| - 1]) + [TimeProc(due[|due| - 1].id)]
  }

  /** Processing one more due timer applies it to the list the earlier ones left. */
  lemma ProcessOneMore(tes: seq<TimeEvent>, due: seq<TimeEvent>, nows: seq<int>, i: int)
    requires |nows| == |due| && 0 <= i < |due|
    ensures ProcessTimers(tes, due[..i + 1], nows[..i + 1])
      == ApplyTimer(ProcessTimers(tes, due[..i], nows[..i]), due[i], nows[i])
    ensures TimerTrace(due[..i + 1]) == TimerTrace(due[..i]) + [TimeProc(due[i].id)]
  {
    assert due[..i + 1][..i] == due[..i] && nows[..i + 1][..i] == nows[..i];
  }

  /** The callbacks of the ready file events, in order. */
  function FileTrace(ready: seq<FileEvent>): (tr: seq<Callback>)
    ensures |tr| == |ready| && forall i | 0 <= i < |ready| :: tr[i] == FileProc(ready[i].fd, ready[i].mask)
  {
    if ready == [] then [] else FileTrace(ready[..|ready| - 1]) + [FileProc(ready[|ready| - 1].fd, ready[|ready| - 1].mask)]
  }

  class EventLoop {
    /** FileEvents; an entry the source sets to nil is absent here. */
    var fileEvents: map<int, FileEvent>
    /** The timer list from TimeEventHead along the next pointers. */
    var timeEvents: seq<TimeEvent>
    var timeEventNextId: int
    var stop: bool

    ghost predicate Valid()
      reads this
    {
      KeysConsistent(fileEvents) && TimersOk(timeEvents, timeEventNextId)
    }

    /** AeCreateEventLoop, once epoll_create1 has succeeded. */
    constructor AeCreateEventLoop()
      ensures Valid()
      ensures fileEvents == map[] && timeEvents == [] && timeEventNextId == 1 && !stop
    {
      fileEvents := map[];
      timeEvents := [];
      timeEventNextId := 1;
      stop := false;
    }

    /**
     * Registers a file event. Nothing happens when its bit is already in the
     * descriptor's interest set; otherwise an ADD (empty set) or MOD request
     * is issued, and the table changes only when it succeeds (ctlOk).
     */
    method AeCreateFileEvent(fd: int, mask: FeType, ctlOk: bool) returns (call: Option<CtlCall>)
      requires Valid()
      modifies this
      ensures Valid()
      ensures timeEvents == old(timeEvents) && timeEventNextId == old(timeEventNextId) && stop == old(stop)
      ensures old(MaskOf(fileEvents, fd)) & Fe2Ep(mask) != 0 ==> call == None && fileEvents == old(fileEvents)
      ensures old(MaskOf(fileEvents, fd)) & Fe2Ep(mask) == 0 ==>
        && call == Some(CtlCall(if old(MaskOf(fileEvents, fd)) == 0 then CtlAdd else CtlMod, fd,
                                old(MaskOf(fileEvents, fd)) | Fe2Ep(mask)))
        && fileEvents == if ctlOk then old(fileEvents)[FeKey(fd, mask) := FileEvent(fd, mask)] else old(fileEvents)
      ensures ctlOk ==> MaskOf(fileEvents, fd) & Fe2Ep(mask) != 0
      ensures ctlOk && fd != 0 && call.Some? ==> call.value.events == MaskOf(fileEvents, fd)
    {
      var ev := MaskOf(fileEvents, fd);
      if ev & Fe2Ep(mask) != 0 {
        return None;
      }
      var op := CtlAdd;
      if ev != 0 {
        op := CtlMod;
      }
      ev := ev | Fe2Ep(mask);
      call := Some(CtlCall(op, fd, ev));
      if !ctlOk {
        return;
      }
      if fd != 0 {
        RegisterSetsBit(fileEvents, fd, mask);
      }
      fileEvents := fileEvents[FeKey(fd, mask) := FileEvent(fd, mask)];
    }

    /**
     * Unregisters a file event: a MOD request keeping the descriptor's other
     * bit when one remains, a DEL request otherwise; the table changes only
     * when the request succeeds.
     */
    method AeDeleteFileEvent(fd: int, mask: FeType, ctlOk: bool) returns (call: CtlCall)
      requires Valid()
      modifies this
      ensures Valid()
      ensures timeEvents == old(timeEvents) && timeEventNextId == old(timeEventNextId) && stop == old(stop)
      ensures var rest := old(MaskOf(fileEvents, fd)) & !Fe2Ep(mask);
        call == CtlCall(if rest == 0 then CtlDel else CtlMod, fd, rest)
      ensures fileEvents == if ctlOk then old(fileEvents) - {FeKey(fd, mask)} else old(fileEvents)
      ensures ctlOk ==> MaskOf(fileEvents, fd) & Fe2Ep(mask) == 0
      ensures ctlOk && fd != 0 ==> call.events == MaskOf(fileEvents, fd)
    {
      var op := CtlDel;
      var ev := MaskOf(fileEvents, fd);
      ev := ev & !Fe2Ep(mask);
      if ev != 0 {
        op := CtlMod;
      }
      call := CtlCall(op, fd, ev);
      if !ctlOk {
        return;
      }
      if fd != 0 {
        UnregisterClearsBit(fileEvents, fd, mask);
      }
      fileEvents := fileEvents - {FeKey(fd, mask)};
    }

    /** Pushes a new timer at the head, due duration ms after now, under a fresh id. */
    method AeCreateTimeEvent(mask: TeType, duration: int, now: int) returns (id: int)
      requires Valid()
      modifies this
      ensures Valid()
      ensures fileEvents == old(fileEvents) && stop == old(stop)
      ensures id == old(timeEventNextId) && timeEventNextId == id + 1
      ensures timeEvents == [TimeEvent(id, mask, now + duration, duration)] + old(timeEvents)
      ensures forall te | te in old(timeEvents) :: te.id < id
    {
      id := timeEventNextId;
      timeEventNextId := timeEventNextId + 1;
      ghost var old_tes := timeEvents;
      timeEvents := [TimeEvent(id, mask, now + duration, duration)] + timeEvents;
      forall i, j | 0 <= i < j < |timeEvents|
        ensures timeEvents[i].id > timeEvents[j].id
      {
        assert timeEvents[j] == old_tes[j - 1] && old_tes[j - 1] in old_tes;
      }
      forall te | te in timeEvents
        ensures 1 <= te.id < timeEventNextId
      {
        if te != timeEvents[0] {
          assert te in old_tes;
        }
      }
    }

    /** Walks the list and unlinks the first timer with this id, if any. */
    method AeDeleteTimeEvent(id: int)
      requires Valid()
      modifies this
      ensures Valid()
      ensures fileEvents == old(fileEvents) && timeEventNextId == old(timeEventNextId) && stop == old(stop)
      ensures timeEvents == RemoveId(old(timeEvents), id)
      ensures forall te :: te in timeEvents <==> te in old(timeEvents) && te.id != id
    {
      RemoveIdExact(timeEvents, id);
      RemoveIdOk(timeEvents, id, timeEventNextId);
      var i := TimerPosition(id);
      if i < |timeEvents| {
        RemoveIdAt(timeEvents, i, id);
        timeEvents := timeEvents[..i] + timeEvents[i + 1..];
      }
    }

    /** The walk of AeDeleteTimeEvent: the position of the first timer with this id, or the list's length. */
    method TimerPosition(id: int) returns (i: int)
      ensures 0 <= i <= |timeEvents|
      ensures forall j | 0 <= j < i :: timeEvents[j].id != id
      ensures i < |timeEvents| ==> timeEvents[i].id == id
    {
      i := 0;
      while i < |timeEvents|
        invariant 0 <= i <= |timeEvents|
        invariant forall j | 0 <= j < i :: timeEvents[j].id != id
      {
        if timeEvents[i].id == id {
          return;
        }
        i := i + 1;
      }
    }

    /** The earliest `when` of all timers, and at most now + 1000. */
    method NearestTime(now: int) returns (nearest: int)
      ensures nearest == Nearest(timeEvents, now + 1000)
    {
      nearest := now + 1000;
      var i := 0;
      while i < |timeEvents|
        invariant 0 <= i <= |timeEvents|
        invariant Nearest(timeEvents, now + 1000) == Nearest(timeEvents[i..], nearest)
      {
        assert timeEvents[i..][1..] == timeEvents[i + 1..];
        if timeEvents[i].when < nearest {
          nearest := timeEvents[i].when;
        }
        i := i + 1;
      }
    }

    /**
     * One wait round. nowA and nowB are the two clock readings taken before
     * the wait, ready is what epoll_wait reported (empty on error), nowC the
     * clock after it. The wait never outlasts a pending timer, and the
     * selected file and timer events are as the table and the list say.
     */
    method AeWait(nowA: int, nowB: int, ready: seq<EpollEvent>, nowC: int)
      returns (timeout: int, tes: seq<TimeEvent>, fes: seq<FileEvent>)
      requires Valid()
      ensures var left := Nearest(timeEvents, nowA + 1000) - nowB;
        timeout == if left > 0 then left else 10
      ensures timeout > 0
      ensures nowA <= nowB ==> timeout <= 1000
      ensures timeout != 10 ==> forall i | 0 <= i < |timeEvents| :: timeout <= timeEvents[i].when - nowB
      ensures fes == ReadyFiles(fileEvents, ready)
      ensures tes == DueTimers(timeEvents, nowC)
      ensures DistinctIds(tes) && forall t | t in tes :: t in timeEvents
    {
      var nearest := NearestTime(nowA);
      timeout := nearest - nowB;
      if timeout <= 0 {
        timeout := 10;
      }
      fes := CollectReady(ready);
      tes := CollectDue(nowC);
      DueDistinct(timeEvents, nowC);
    }

    /** The registered events the epoll results name, in the order reported. */
    method CollectReady(ready: seq<EpollEvent>) returns (fes: seq<FileEvent>)
      ensures fes == ReadyFiles(fileEvents, ready)
    {
      fes := [];
      for i := 0 to |ready|
        invariant fes == ReadyFiles(fileEvents, ready[..i])
      {
        assert ready[..i + 1][..i] == ready[..i];
        if ready[i].events & EPOLLIN != 0 {
          var key := FeKey(ready[i].fd, Readable);
          if key in fileEvents {
            fes := fes + [fileEvents[key]];
          }
        }
        if ready[i].events & EPOLLOUT != 0 {
          var key := FeKey(ready[i].fd, Writable);
          if key in fileEvents {
            fes := fes + [fileEvents[key]];
          }
        }
      }
      assert ready[..|ready|] == ready;
    }

    /** The timers due before now, in list order. */
    method CollectDue(now: int) returns (tes: seq<TimeEvent>)
      ensures tes == DueTimers(timeEvents, now)
    {
      tes := [];
      for i := 0 to |timeEvents|
        invariant tes == DueTimers(timeEvents[..i], now)
      {
        assert timeEvents[..i + 1][..i] == timeEvents[..i];
        if timeEvents[i].when < now {
          tes := tes + [timeEvents[i]];
        }
      }
      assert timeEvents[..|timeEvents|] == timeEvents;
    }

    /** After a timer's callback: reschedule a repeating timer, delete a once-only one. */
    method RunTimer(te: TimeEvent, now: int)
      requires Valid()
      modifies this
      ensures Valid()
      ensures fileEvents == old(fileEvents) && timeEventNextId == old(timeEventNextId) && stop == old(stop)
      ensures timeEvents == ApplyTimer(old(timeEvents), te, now)
    {
      ApplyTimerKeeps(timeEvents, te, now, timeEventNextId);
      if te.mask == Normal {
        timeEvents := SetWhen(timeEvents, te.id, now + te.duration);
      } else {
        AeDeleteTimeEvent(te.id);
      }
    }

    /** The timer loop of AeProcessEvents: each due timer's callback, then its reschedule or deletion. */
    method RunDueTimers(tes: seq<TimeEvent>, nows: seq<int>) returns (trace: seq<Callback>)
      requires Valid() && |nows| == |tes|
      modifies this
      ensures Valid()
      ensures fileEvents == old(fileEvents) && timeEventNextId == old(timeEventNextId) && stop == old(stop)
      ensures timeEvents == ProcessTimers(old(timeEvents), tes, nows)
      ensures trace == TimerTrace(tes)
    {
      trace := [];
      for i := 0 to |tes|
        invariant Valid()
        invariant fileEvents == old(fileEvents) && timeEventNextId == old(timeEventNextId) && stop == old(stop)
        invariant timeEvents == ProcessTimers(old(timeEvents), tes[..i], nows[..i])
        invariant trace == TimerTrace(tes[..i])
      {
        ProcessOneMore(old(timeEvents), tes, nows, i);
        var te := tes[i];
        trace := trace + [TimeProc(te.id)];
        RunTimer(te, nows[i]);
      }
      assert tes[..|tes|] == tes && nows[..|nows|] == nows;
    }

    /**
     * Runs the due timers, then the ready file events. A repeating timer is
     * rescheduled duration ms after the clock reading nows[i]; a once-only
     * timer is deleted.
     */
    method AeProcessEvents(tes: seq<TimeEvent>, fes: seq<FileEvent>, nows: seq<int>) returns (trace: seq<Callback>)
      requires Valid() && |nows| == |tes|
      requires (forall t | t in tes :: t in timeEvents) && DistinctIds(tes)
      modifies this
      ensures Valid()
      ensures fileEvents == old(fileEvents) && timeEventNextId == old(timeEventNextId) && stop == old(stop)
      ensures timeEvents == ProcessTimers(old(timeEvents), tes, nows)
      ensures forall i | 0 <= i < |tes| && tes[i].mask == Normal :: tes[i].(when := nows[i] + tes[i].duration) in timeEvents
      ensures forall i | 0 <= i < |tes| && tes[i].mask == Once :: tes[i].id !in Ids(timeEvents)
      ensures trace == TimerTrace(tes) + FileTrace(fes)
    {
      trace := RunDueTimers(tes, nows);
      for i := 0 to |fes|
        invariant trace == TimerTrace(tes) + FileTrace(fes[..i])
      {
        assert fes[..i + 1][..i] == fes[..i];
        trace := trace + [FileProc(fes[i].fd, fes[i].mask)];
      }
      assert fes[..|fes|] == fes;
      ProcessOutcome(old(timeEvents), tes, nows, timeEventNextId);
    }
  }
}
