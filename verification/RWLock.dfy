/** The readers/writer lock: a recursive mutex, a counter of read locks, a counter of writers that
    sleep, and a binary event.  Threads interleave at every access to the shared record: each
    counter update is a load and a store of its own. */
module RWLock {

  datatype Pc =
    | Idle
    // cexpReadLock
    | RLock | RLoad | RStore | RUnlock
    // cexpReadUnlock
    | ULock | ULoad | UStore | UTest | SLoad | SStore | Send | UUnlock
    // cexpWriteLock
    | WLock | WTest | WLoad | WStore | WRelease | WWait
    // cexpWriteUnlock
    | XUnlock

  /** A thread with a register, and the read and write locks it has taken and not yet given back. */
  datatype Thread = Thread(pc: Pc, reg: int, rd: nat, wr: nat)

  /** The shared record: `owner` is -1 and `count` 0 while the mutex is free. */
  datatype Lock = Lock(owner: int, count: int, readers: int, sleeping: int, token: bool)

  datatype State = State(lock: Lock, threads: seq<Thread>)

  datatype Call = ReadLock | ReadUnlock | WriteLock | WriteUnlock

  function Init(n: nat): State
  {
    State(Lock(-1, 0, 0, 0, false), seq(n, _ => Thread(Idle, 0, 0, 0)))
  }

  /** What a thread may ask for: it gives back only what it holds, and a reader must not try to
      acquire the write lock. */
  predicate Allowed(x: Thread, c: Call)
  {
    match c
    case ReadLock => true
    case ReadUnlock => x.rd > 0
    case WriteLock => x.rd == 0
    case WriteUnlock => x.wr > 0
  }

  function Entry(c: Call): Pc
  {
    match c
    case ReadLock => RLock
    case ReadUnlock => ULock
    case WriteLock => WLock
    case WriteUnlock => XUnlock
  }

  /** The record and the thread after a step. */
  datatype Moved = Moved(lock: Lock, thread: Thread)

  /** Take the recursive mutex; a thread stays where it is while another one owns it. */
  function Acquire(l: Lock, x: Thread, t: nat, pc: Pc): Moved
  {
    if l.owner == -1 || l.owner == t then Moved(l.(owner := t, count := l.count + 1), x.(pc := pc)) else Moved(l, x)
  }

  function Release(l: Lock): Lock
  {
    l.(count := l.count - 1, owner := if l.count - 1 == 0 then -1 else l.owner)
  }

  /** One atomic step of thread number `t`; an idle thread makes the call `c` if it is allowed to. */
  function Move(l: Lock, x: Thread, t: nat, c: Call): Moved
  {
    match x.pc
    case Idle => Moved(l, if Allowed(x, c) then x.(pc := Entry(c)) else x)
    case RLock => Acquire(l, x, t, RLoad)
    case RLoad => Moved(l, x.(pc := RStore, reg := l.readers))
    case RStore => Moved(l.(readers := x.reg + 1), x.(pc := RUnlock, rd := x.rd + 1))
    case RUnlock => Moved(Release(l), x.(pc := Idle))
    case ULock => Acquire(l, x, t, ULoad)
    case ULoad => Moved(l, x.(pc := UStore, reg := l.readers))
    case UStore =>
      Moved(l.(readers := x.reg - 1),
            x.(pc := if x.reg - 1 == 0 then UTest else UUnlock, rd := if x.rd > 0 then x.rd - 1 else 0))
    case UTest => Moved(l, x.(pc := if l.sleeping != 0 then SLoad else UUnlock))
    case SLoad => Moved(l, x.(pc := SStore, reg := l.sleeping))
    case SStore => Moved(l.(sleeping := x.reg - 1), x.(pc := Send))
    case Send => Moved(l.(token := true), x.(pc := UUnlock))
    case UUnlock => Moved(Release(l), x.(pc := Idle))
    case WLock => Acquire(l, x, t, WTest)
    case WTest => Moved(l, if l.readers != 0 then x.(pc := WLoad) else x.(pc := Idle, wr := x.wr + 1))
    case WLoad => Moved(l, x.(pc := WStore, reg := l.sleeping))
    case WStore => Moved(l.(sleeping := x.reg + 1), x.(pc := WRelease))
    case WRelease => Moved(Release(l), x.(pc := WWait))
    case WWait => if l.token then Moved(l.(token := false), x.(pc := WLock)) else Moved(l, x)
    case XUnlock => Moved(Release(l), x.(pc := Idle, wr := if x.wr > 0 then x.wr - 1 else 0))
  }

  function Step(s: State, t: nat, c: Call): State
    requires t < |s.threads|
  {
    var m := Move(s.lock, s.threads[t], t, c);
    State(m.lock, s.threads[t := m.thread])
  }

  /** A schedule says which thread moves next and what it would call. */
  function Run(n: nat, schedule: seq<(nat, Call)>): (s: State)
    ensures |s.threads| == n
  {
    if schedule == [] then Init(n)
    else
      var s, m := Run(n, schedule[..|schedule| - 1]), schedule[|schedule| - 1];
      if m.0 < n then Step(s, m.0, m.1) else s
  }

  // ---- counting over threads

  datatype Measure = ReadDepth | Announced | Sending

  function Weight(k: Measure, x: Thread): nat
  {
    match k
    case ReadDepth => x.rd
    case Announced => if x.pc.WRelease? || x.pc.WWait? then 1 else 0
    case Sending => if x.pc.Send? then 1 else 0
  }

  function Total(k: Measure, ts: seq<Thread>): nat
  {
    if ts == [] then 0 else Weight(k, ts[0]) + Total(k, ts[1..])
  }

  lemma {:induction false} TotalUpdate(k: Measure, ts: seq<Thread>, t: nat, x: Thread)
    requires t < |ts|
    ensures Total(k, ts[t := x]) == Total(k, ts) - Weight(k, ts[t]) + Weight(k, x)
  {
    if t == 0 {
      assert ts[t := x][1..] == ts[1..];
    } else {
      assert ts[t := x][1..] == ts[1..][t - 1 := x];
      TotalUpdate(k, ts[1..], t - 1, x);
    }
  }

  lemma {:induction false} TotalAtLeast(k: Measure, ts: seq<Thread>, t: nat)
    requires t < |ts|
    ensures Weight(k, ts[t]) <= Total(k, ts)
  {
    if t > 0 {
      TotalAtLeast(k, ts[1..], t - 1);
    }
  }

  lemma {:induction false} TotalZero(k: Measure, ts: seq<Thread>)
    requires forall t :: 0 <= t < |ts| ==> Weight(k, ts[t]) == 0
    ensures Total(k, ts) == 0
  {
    if ts != [] {
      TotalZero(k, ts[1..]);
    }
  }

  // ---- the invariant

  /** Is the thread between acquiring the mutex for a call and releasing it? */
  predicate Inside(pc: Pc)
  {
    match pc
    case Idle | RLock | ULock | WLock | WWait | XUnlock => false
    case _ => true
  }

  /** How often the thread has locked the mutex. */
  function Holds(x: Thread): nat
  {
    x.wr + if Inside(x.pc) then 1 else 0
  }

  /** What a thread knows at its place in the code: the counter in its register is current, and it holds
      what its place requires. */
  predicate PcOk(x: Thread, l: Lock)
  {
    RegisterOk(x, l) && LocksOk(x)
  }

  predicate RegisterOk(x: Thread, l: Lock)
  {
    && (x.pc.RStore? || x.pc.UStore? ==> x.reg == l.readers)
    && (x.pc.SStore? || x.pc.WStore? ==> x.reg == l.sleeping)
    && (x.pc.SLoad? || x.pc.SStore? ==> l.sleeping > 0)
  }

  predicate LocksOk(x: Thread)
  {
    && (x.pc.ULock? || x.pc.ULoad? || x.pc.UStore? ==> x.rd > 0)
    && (x.pc.WLock? || x.pc.WTest? || x.pc.WLoad? || x.pc.WStore? || x.pc.WRelease? || x.pc.WWait? ==> x.rd == 0)
    && (x.pc.WLoad? || x.pc.WStore? || x.pc.WRelease? || x.pc.WWait? ==> x.wr == 0)
    && (x.pc.XUnlock? ==> x.wr > 0)
  }

  ghost predicate MutexOk(l: Lock, ts: seq<Thread>)
  {
    && (if l.owner == -1 then l.count == 0
        else 0 <= l.owner < |ts| && l.count == Holds(ts[l.owner]) > 0)
    && forall t :: 0 <= t < |ts| && Holds(ts[t]) > 0 ==> l.owner == t
  }

  ghost predicate PcsOk(l: Lock, ts: seq<Thread>)
  {
    forall t :: 0 <= t < |ts| ==> PcOk(ts[t], l)
  }

  /** While a thread holds the write lock nobody else holds a read lock. */
  ghost predicate Exclusive(ts: seq<Thread>)
  {
    forall t, u :: 0 <= t < |ts| && 0 <= u < |ts| && t != u && ts[t].wr > 0 ==> ts[u].rd == 0
  }

  function Pending(token: bool): nat { if token then 1 else 0 }

  /** Every sleeper counted, every wakeup on its way and the pending event belong to a writer that
      announced itself. */
  predicate WakeupsOk(l: Lock, sending: nat, announced: nat)
  {
    l.sleeping >= 0 && l.sleeping + Pending(l.token) + sending <= announced
  }

  ghost predicate Inv(s: State)
  {
    && MutexOk(s.lock, s.threads) && PcsOk(s.lock, s.threads) && s.lock.readers == Total(ReadDepth, s.threads)
    && Exclusive(s.threads) && WakeupsOk(s.lock, Total(Sending, s.threads), Total(Announced, s.threads))
  }

  lemma InitInv(n: nat)
    ensures Inv(Init(n))
  {
    forall k: Measure ensures Total(k, Init(n).threads) == 0 {
      TotalZero(k, Init(n).threads);
    }
  }

  /** What a step does to the mutex agrees with what it does to the thread. */
  predicate MutexMoves(l: Lock, x: Thread, t: nat, l': Lock, x': Thread)
  {
    || (Holds(x') == Holds(x) && l'.owner == l.owner && l'.count == l.count)
    || (Holds(x') == Holds(x) + 1 && (l.owner == -1 || l.owner == t) && l'.owner == t && l'.count == l.count + 1)
    || (Holds(x') == Holds(x) - 1 && l'.count == l.count - 1 && l'.owner == if l'.count == 0 then -1 else l.owner)
  }

  lemma MoveObeysMutex(l: Lock, x: Thread, t: nat, c: Call)
    requires PcOk(x, l)
    ensures var m := Move(l, x, t, c); MutexMoves(l, x, t, m.lock, m.thread)
  {
  }

  lemma MoveKeepsRegister(l: Lock, x: Thread, t: nat, c: Call)
    requires RegisterOk(x, l) && l.sleeping >= 0
    ensures var m := Move(l, x, t, c); RegisterOk(m.thread, m.lock)
  {
  }

  lemma MoveKeepsLocks(l: Lock, x: Thread, t: nat, c: Call)
    requires LocksOk(x) && (x.pc.WTest? && x.wr > 0 ==> l.readers == 0)
    ensures LocksOk(Move(l, x, t, c).thread)
  {
  }

  /** Everything about a step that concerns its own thread: it obeys the mutex, knows what its new
      place requires, changes counters only inside, and keeps the sums in step. */
  lemma MoveIsLocal(l: Lock, x: Thread, t: nat, c: Call)
    requires PcOk(x, l) && (x.pc.WTest? && x.wr > 0 ==> l.readers == 0) && l.sleeping >= 0
    ensures var m := Move(l, x, t, c);
      && MutexMoves(l, x, t, m.lock, m.thread) && PcOk(m.thread, m.lock)
      && (m.lock.readers != l.readers || m.lock.sleeping != l.sleeping ==> Inside(x.pc))
      && (m.thread.rd > x.rd ==> Inside(x.pc)) && (m.thread.wr > x.wr ==> l.readers == 0)
  {
    MoveObeysMutex(l, x, t, c);
    MoveKeepsRegister(l, x, t, c);
    MoveKeepsLocks(l, x, t, c);
  }

  lemma MoveKeepsSums(l: Lock, x: Thread, t: nat, c: Call, sending: nat, announced: nat)
    requires PcOk(x, l) && WakeupsOk(l, sending, announced)
    requires Weight(Sending, x) <= sending && Weight(Announced, x) <= announced
    ensures var m := Move(l, x, t, c);
      && m.lock.readers == l.readers - x.rd + m.thread.rd
      && WakeupsOk(m.lock, sending - Weight(Sending, x) + Weight(Sending, m.thread),
                   announced - Weight(Announced, x) + Weight(Announced, m.thread))
  {
  }

  lemma MutexKept(l: Lock, ts: seq<Thread>, t: nat, l': Lock, x': Thread)
    requires t < |ts| && MutexOk(l, ts) && MutexMoves(l, ts[t], t, l', x')
    ensures MutexOk(l', ts[t := x'])
  {
  }

  /** Only one thread is inside the mutex, so the others know nothing that could change. */
  lemma PcsKept(l: Lock, ts: seq<Thread>, t: nat, l': Lock, x': Thread)
    requires t < |ts| && MutexOk(l, ts) && PcsOk(l, ts) && PcOk(x', l')
    requires l'.readers != l.readers || l'.sleeping != l.sleeping ==> Inside(ts[t].pc)
    ensures PcsOk(l', ts[t := x'])
  {
    forall u | 0 <= u < |ts| && u != t ensures PcOk(ts[u], l') {
      assert PcOk(ts[u], l);
      assert Inside(ts[t].pc) ==> Holds(ts[t]) > 0;
      assert Inside(ts[u].pc) ==> Holds(ts[u]) > 0;
    }
  }

  lemma ExclusionKept(l: Lock, ts: seq<Thread>, t: nat, x': Thread)
    requires t < |ts| && MutexOk(l, ts) && l.readers == Total(ReadDepth, ts) && Exclusive(ts)
    requires (x'.rd > ts[t].rd ==> Inside(ts[t].pc)) && (x'.wr > ts[t].wr ==> l.readers == 0)
    ensures Exclusive(ts[t := x'])
  {
    var r := ts[t := x'];
    forall a, b | 0 <= a < |r| && 0 <= b < |r| && a != b && r[a].wr > 0 ensures r[b].rd == 0 {
      TotalAtLeast(ReadDepth, ts, b);
      assert Inside(ts[t].pc) ==> Holds(ts[t]) > 0;
      assert ts[a].wr > 0 ==> Holds(ts[a]) > 0;
    }
  }

  /** A writer that asks again finds no readers. */
  lemma WriterAlone(s: State, t: nat)
    requires t < |s.threads| && Inv(s) && s.threads[t].wr > 0 && s.threads[t].rd == 0
    ensures s.lock.readers == 0
  {
    TotalZero(ReadDepth, s.threads);
  }

  lemma StepKeepsInv(s: State, t: nat, c: Call)
    requires t < |s.threads| && Inv(s)
    ensures Inv(Step(s, t, c))
  {
    var l, ts, x := s.lock, s.threads, s.threads[t];
    var m := Move(l, x, t, c);
    assert PcOk(x, l);
    if x.pc.WTest? && x.wr > 0 {
      WriterAlone(s, t);
    }
    MoveIsLocal(l, x, t, c);
    MutexKept(l, ts, t, m.lock, m.thread);
    PcsKept(l, ts, t, m.lock, m.thread);
    ExclusionKept(l, ts, t, m.thread);
    SumsKept(s, t, c);
  }

  lemma SumsKept(s: State, t: nat, c: Call)
    requires t < |s.threads| && Inv(s)
    ensures var s' := Step(s, t, c);
      s'.lock.readers == Total(ReadDepth, s'.threads)
      && WakeupsOk(s'.lock, Total(Sending, s'.threads), Total(Announced, s'.threads))
  {
    var x, x' := s.threads[t], Move(s.lock, s.threads[t], t, c).thread;
    assert PcOk(x, s.lock);
    TotalAtLeast(Sending, s.threads, t);
    TotalAtLeast(Announced, s.threads, t);
    MoveKeepsSums(s.lock, x, t, c, Total(Sending, s.threads), Total(Announced, s.threads));
    TotalUpdate(ReadDepth, s.threads, t, x');
    TotalUpdate(Sending, s.threads, t, x');
    TotalUpdate(Announced, s.threads, t, x');
  }

  lemma {:induction false} RunKeepsInv(n: nat, schedule: seq<(nat, Call)>)
    ensures Inv(Run(n, schedule))
  {
    if schedule == [] {
      InitInv(n);
    } else {
      RunKeepsInv(n, schedule[..|schedule| - 1]);
      var m := schedule[|schedule| - 1];
      if m.0 < n {
        StepKeepsInv(Run(n, schedule[..|schedule| - 1]), m.0, m.1);
      }
    }
  }

  // ---- what it means

  /** In every interleaving of any number of threads: the counter is the number of read locks held,
      a writer excludes all other readers and writers, and the sleeping writers together with the
      event are never more than the writers that announced themselves and wait. */
  lemma Safety(n: nat, schedule: seq<(nat, Call)>, t: nat, u: nat)
    requires t < n && u < n && t != u
    ensures var s := Run(n, schedule);
      && s.lock.readers == Total(ReadDepth, s.threads)
      && (s.threads[t].wr > 0 ==> s.threads[u].wr == 0 && s.threads[u].rd == 0)
      && 0 <= s.lock.sleeping && s.lock.sleeping + Pending(s.lock.token) <= Total(Announced, s.threads)
  {
    RunKeepsInv(n, schedule);
    var s := Run(n, schedule);
    assert s.threads[t].wr > 0 ==> Holds(s.threads[t]) > 0;
    assert s.threads[u].wr > 0 ==> Holds(s.threads[u]) > 0;
  }

  /** Once all threads are idle and hold nothing, the record is as it was in the beginning. */
  lemma QuietIsInitial(n: nat, schedule: seq<(nat, Call)>)
    requires forall t :: 0 <= t < n ==> Run(n, schedule).threads[t].(reg := 0) == Thread(Idle, 0, 0, 0)
    ensures Run(n, schedule).lock == Init(n).lock
  {
    RunKeepsInv(n, schedule);
    var s := Run(n, schedule);
    assert forall t :: 0 <= t < n ==> s.threads[t].(reg := 0) == Thread(Idle, 0, 0, 0);
    TotalZero(ReadDepth, s.threads);
    TotalZero(Announced, s.threads);
  }

  // ---- a call that nobody disturbs

  /** The thread makes `k` steps while all others stand still. */
  function Solo(l: Lock, x: Thread, t: nat, c: Call, k: nat): Moved
    decreases k
  {
    if k == 0 then Moved(l, x)
    else
      var m := Move(l, x, t, c);
      Solo(m.lock, m.thread, t, c, k - 1)
  }

  /** The mutex is free for the thread. */
  predicate FreeFor(l: Lock, t: nat)
  {
    (l.owner == -1 && l.count == 0) || (l.owner == t && l.count > 0)
  }

  /** A reader comes in: one more read lock, and the mutex is as before. */
  lemma ReaderEnters(l: Lock, x: Thread, t: nat)
    requires FreeFor(l, t) && x.pc.Idle?
    ensures Solo(l, x, t, ReadLock, 5) ==
      Moved(l.(readers := l.readers + 1), x.(rd := x.rd + 1, reg := l.readers))
  {
    var m := Solo(l, x, t, ReadLock, 2);
    assert m == Moved(l.(owner := t, count := l.count + 1), x.(pc := RLoad));
    assert Solo(m.lock, m.thread, t, ReadLock, 3) == Solo(l, x, t, ReadLock, 5);
  }

  /** A reader leaves: if it was the last one and writers sleep, one of them is woken up. */
  lemma ReaderLeaves(l: Lock, x: Thread, t: nat)
    requires FreeFor(l, t) && x.pc.Idle? && x.rd > 0
    ensures var out := x.(rd := x.rd - 1);
      if l.readers != 1 then
        Solo(l, x, t, ReadUnlock, 5) == Moved(l.(readers := l.readers - 1), out.(reg := l.readers))
      else if l.sleeping == 0 then
        Solo(l, x, t, ReadUnlock, 6) == Moved(l.(readers := 0), out.(reg := 1))
      else
        Solo(l, x, t, ReadUnlock, 9)
        == Moved(l.(readers := 0, sleeping := l.sleeping - 1, token := true), out.(reg := l.sleeping))
  {
    var m := Solo(l, x, t, ReadUnlock, 4);
    assert m == Moved(l.(owner := t, count := l.count + 1, readers := l.readers - 1),
                      x.(pc := if l.readers == 1 then UTest else UUnlock, rd := x.rd - 1, reg := l.readers));
    if l.readers != 1 {
      assert Solo(m.lock, m.thread, t, ReadUnlock, 1) == Solo(l, x, t, ReadUnlock, 5);
    } else if l.sleeping == 0 {
      assert Solo(m.lock, m.thread, t, ReadUnlock, 2) == Solo(l, x, t, ReadUnlock, 6);
    } else {
      assert Solo(m.lock, m.thread, t, ReadUnlock, 5) == Solo(l, x, t, ReadUnlock, 9);
    }
  }

  /** A writer comes in if there are no readers, and keeps the mutex; otherwise it is counted as sleeping,
      gives the mutex back and waits for the event. */
  lemma WriterEnters(l: Lock, x: Thread, t: nat)
    requires FreeFor(l, t) && x.pc.Idle? && x.rd == 0
    ensures if l.readers == 0 then
        Solo(l, x, t, WriteLock, 3) == Moved(l.(owner := t, count := l.count + 1), x.(wr := x.wr + 1))
      else
        Solo(l, x, t, WriteLock, 6)
        == Moved(l.(sleeping := l.sleeping + 1), x.(pc := WWait, reg := l.sleeping))
  {
    var m := Solo(l, x, t, WriteLock, 2);
    assert m == Moved(l.(owner := t, count := l.count + 1), x.(pc := WTest));
    if l.readers == 0 {
      assert Solo(m.lock, m.thread, t, WriteLock, 1) == Solo(l, x, t, WriteLock, 3);
    } else {
      assert Solo(m.lock, m.thread, t, WriteLock, 4) == Solo(l, x, t, WriteLock, 6);
    }
  }

  /** A waiting writer stays where it is until the event comes; then it comes in if there are no readers. */
  lemma WriterWakes(l: Lock, x: Thread, t: nat, c: Call)
    requires FreeFor(l, t) && x.pc.WWait?
    ensures !l.token ==> Solo(l, x, t, c, 1) == Moved(l, x)
    ensures l.token && l.readers == 0 ==>
      Solo(l, x, t, c, 3)
      == Moved(l.(owner := t, count := l.count + 1, token := false), x.(pc := Idle, wr := x.wr + 1))
  {
    assert Solo(l, x, t, c, 1) == Move(l, x, t, c);
    if l.token && l.readers == 0 {
      var m := Solo(l, x, t, c, 2);
      assert m == Moved(l.(owner := t, count := l.count + 1, token := false), x.(pc := WTest));
      assert Solo(m.lock, m.thread, t, c, 1) == Solo(l, x, t, c, 3);
    }
  }

  /** A writer leaves: the mutex is free again with its last write lock. */
  lemma WriterLeaves(l: Lock, x: Thread, t: nat)
    requires l.owner == t && l.count > 0 && x.pc.Idle? && x.wr > 0
    ensures Solo(l, x, t, WriteUnlock, 2) ==
      Moved(l.(count := l.count - 1, owner := if l.count == 1 then -1 else t), x.(wr := x.wr - 1))
  {
    assert Solo(l, x, t, WriteUnlock, 1) == Moved(l, x.(pc := XUnlock));
  }
}
