/** The kernel's spinlocks: any number of CPUs run any calls, and no one waits for ever. */
module Locks {
  import opened Arith

  datatype Lock = Binfmt | ExecLock | Sched | Vfs | PoolRealloc | Realloc | PoolCreate | PoolAlloc | PoolFree
                | Malloc | Free | Pmm | Printf | TaskSwitch

  /** The order in which locks are taken inside one another. */
  function Rank(l: Lock): nat {
    match l
    case Binfmt => 0 case ExecLock => 1 case Sched => 2 case Vfs => 3 case PoolRealloc => 4 case Realloc => 5
    case PoolCreate => 6 case PoolAlloc => 7 case PoolFree => 8 case Malloc => 9 case Free => 10 case Pmm => 11
    case Printf => 12 case TaskSwitch => 13
  }

  const RANKS: nat := 14

  lemma RanksTellLocksApart(l: Lock, m: Lock)
    ensures Rank(l) < RANKS && (Rank(l) == Rank(m) <==> l == m)
  {
  }

  // ----- what the calls do with locks -----

  /** A piece of code, seen through its locks: `Locked` is lock, body, unlock. */
  datatype Work = Idle | Locked(l: Lock, body: Work) | Then(first: Work, second: Work)

  function Times(n: nat, w: Work): Work {
    if n == 0 then Idle else Then(w, Times(n - 1, w))
  }

  /** Where binfmt_load ends. */
  datatype LoadEnd = NotFound | NoStat | NoRead | NoClose | Read

  /** The calls, with what decides their path: arguments, results, and how often they allocate. */
  datatype Call =
    | Print
    | Kmalloc
    | Kfree
    | PmmCall
    | Krealloc(zero: bool, noPtr: bool, fits: bool)
    | PoolCreation
    | PoolAllocation
    | PoolRelease
    | PoolResize(zero: bool, noPtr: bool, fits: bool)
    | VfsMount(absolute: bool, nodes: nat)
    | CreateTask(pages: nat)
    | QueueTask(copies: nat)
    | SwitchTask
    | LoadFile(end: LoadEnd)
    | Run(created: bool, isElf: bool, taskPages: nat, pages: nat, copies: nat)
    | Exec(end: LoadEnd, created: bool, isElf: bool, taskPages: nat, pages: nat, copies: nat)

  function Body(c: Call): Work
    decreases match c case Exec(_, _, _, _, _, _) => 2 case Run(_, _, _, _, _) => 1 case LoadFile(_) => 1 case _ => 0
  {
    var kmalloc, kfree, pmm, log := Locked(Malloc, Idle), Locked(Free, Idle), Locked(Pmm, Idle), Locked(Printf, Idle);
    var poolAlloc, poolFree := Locked(PoolAlloc, Idle), Locked(PoolFree, Idle);
    match c
    case Print => log
    case Kmalloc => kmalloc
    case Kfree => kfree
    case PmmCall => pmm
    case Krealloc(zero, noPtr, fits) =>
      if zero then Locked(Realloc, kfree)
      else if noPtr then Then(Locked(Realloc, Idle), kmalloc)
      else if fits then Locked(Realloc, Idle)
      else Locked(Realloc, Then(kmalloc, kfree))
    case PoolCreation => Locked(PoolCreate, Idle)
    case PoolAllocation => poolAlloc
    case PoolRelease => poolFree
    case PoolResize(zero, noPtr, fits) =>
      if zero then Locked(PoolRealloc, Idle)
      else if noPtr then Then(Locked(PoolRealloc, Idle), poolAlloc)
      else if fits then Locked(PoolRealloc, Idle)
      else Locked(PoolRealloc, Then(poolAlloc, poolFree))
    case VfsMount(absolute, nodes) => if absolute then Locked(Vfs, Times(nodes, kmalloc)) else log
    case CreateTask(pages) =>
      Locked(Sched, Then(kmalloc, Then(kmalloc, Then(Times(pages, pmm), Then(kmalloc, kmalloc)))))
    case QueueTask(copies) => Times(copies, kmalloc)
    case SwitchTask => Locked(TaskSwitch, Idle)
    case LoadFile(end) =>
      var lookup := Locked(Vfs, Idle);
      if end.NotFound? || end.NoStat? then Then(lookup, log)
      else Then(lookup, Then(poolAlloc, if end.NoRead? then log
           else Then(log, Then(kmalloc, if end.NoClose? then log else Idle))))
    case Run(created, isElf, taskPages, pages, copies) =>
      var create := Then(kmalloc, Body(CreateTask(taskPages)));
      if !created then Then(Locked(ExecLock, create), log)
      else if !isElf then Then(Locked(ExecLock, create), log)
      else Locked(ExecLock, Then(create, Then(Times(pages, pmm), Then(Body(QueueTask(copies)), log))))
    case Exec(end, created, isElf, taskPages, pages, copies) =>
      Then(Locked(Binfmt, Body(LoadFile(end))),
           if end.Read? then Body(Run(created, isElf, taskPages, pages, copies)) else log)
  }

  /** Locks are taken above `floor`, and each inside only lower-ranked ones. */
  ghost predicate Ordered(w: Work, floor: int) {
    match w
    case Idle => true
    case Locked(l, body) => Rank(l) > floor && Ordered(body, Rank(l))
    case Then(first, second) => Ordered(first, floor) && Ordered(second, floor)
  }

  lemma {:induction false} TimesOrdered(n: nat, w: Work, floor: int)
    requires Ordered(w, floor)
    ensures Ordered(Times(n, w), floor)
  {
    if n > 0 {
      TimesOrdered(n - 1, w, floor);
    }
  }

  /** Every path of every call nests its locks in the one order. */
  lemma CallsAreOrdered(c: Call)
    ensures Ordered(Body(c), -1)
  {
    match c
    case VfsMount(_, nodes) => TimesOrdered(nodes, Locked(Malloc, Idle), Rank(Vfs));
    case CreateTask(pages) => CreateIsOrdered(pages, -1);
    case QueueTask(copies) => TimesOrdered(copies, Locked(Malloc, Idle), -1);
    case Run(created, isElf, taskPages, pages, copies) => RunIsOrdered(c, -1);
    case Exec(end, created, isElf, taskPages, pages, copies) =>
      RunIsOrdered(Run(created, isElf, taskPages, pages, copies), -1);
    case _ =>
  }

  lemma CreateIsOrdered(pages: nat, floor: int)
    requires floor < Rank(Sched)
    ensures Ordered(Body(CreateTask(pages)), floor)
  {
    var kmalloc, mapping := Locked(Malloc, Idle), Times(pages, Locked(Pmm, Idle));
    TimesOrdered(pages, Locked(Pmm, Idle), Rank(Sched));
    assert Ordered(Then(mapping, Then(kmalloc, kmalloc)), Rank(Sched));
    assert Ordered(Then(kmalloc, Then(mapping, Then(kmalloc, kmalloc))), Rank(Sched));
    assert Ordered(Then(kmalloc, Then(kmalloc, Then(mapping, Then(kmalloc, kmalloc)))), Rank(Sched));
  }

  lemma RunIsOrdered(c: Call, floor: int)
    requires c.Run? && floor < Rank(ExecLock)
    ensures Ordered(Body(c), floor)
  {
    var kmalloc, log := Locked(Malloc, Idle), Locked(Printf, Idle);
    var mapping, copies := Times(c.pages, Locked(Pmm, Idle)), Body(QueueTask(c.copies));
    CreateIsOrdered(c.taskPages, Rank(ExecLock));
    TimesOrdered(c.pages, Locked(Pmm, Idle), Rank(ExecLock));
    TimesOrdered(c.copies, kmalloc, Rank(ExecLock));
    var create := Then(kmalloc, Body(CreateTask(c.taskPages)));
    assert Ordered(create, Rank(ExecLock));
    assert Ordered(Then(mapping, Then(copies, log)), Rank(ExecLock));
    assert Ordered(Then(create, Then(mapping, Then(copies, log))), Rank(ExecLock));
  }

  // ----- the steps of one CPU -----

  datatype Op = Acquire(l: Lock) | Release(l: Lock)

  function Trace(w: Work): seq<Op> {
    match w
    case Idle => []
    case Locked(l, body) => [Acquire(l)] + Trace(body) + [Release(l)]
    case Then(first, second) => Trace(first) + Trace(second)
  }

  /** Acquiring only above what is held, releasing what was acquired last, and holding nothing at
      the end. `held` is a stack. */
  ghost predicate Disciplined(rest: seq<Op>, held: seq<Lock>) {
    if rest == [] then held == []
    else match rest[0]
      case Acquire(l) => Rank(l) > Top(held) && Disciplined(rest[1..], held + [l])
      case Release(l) => held != [] && held[|held| - 1] == l && Disciplined(rest[1..], held[..|held| - 1])
  }

  ghost function Top(held: seq<Lock>): int {
    if held == [] then -1 else Rank(held[|held| - 1])
  }

  lemma {:induction false} OrderedIsDisciplined(w: Work, held: seq<Lock>, rest: seq<Op>)
    requires Ordered(w, Top(held)) && Disciplined(rest, held)
    ensures Disciplined(Trace(w) + rest, held)
  {
    match w
    case Idle =>
      assert Trace(w) + rest == rest;
    case Locked(l, body) =>
      var inside, after := held + [l], [Release(l)] + rest;
      assert inside[..|held|] == held && after[1..] == rest;
      OrderedIsDisciplined(body, inside, after);
      assert Trace(w) + rest == [Acquire(l)] + (Trace(body) + after);
    case Then(first, second) =>
      OrderedIsDisciplined(second, held, rest);
      OrderedIsDisciplined(first, held, Trace(second) + rest);
      assert Trace(w) + rest == Trace(first) + (Trace(second) + rest);
  }

  function Program(calls: seq<Call>): seq<Op> {
    if calls == [] then [] else Trace(Body(calls[0])) + Program(calls[1..])
  }

  lemma {:induction false} ProgramsAreDisciplined(calls: seq<Call>)
    ensures Disciplined(Program(calls), [])
  {
    if calls != [] {
      ProgramsAreDisciplined(calls[1..]);
      CallsAreOrdered(calls[0]);
      OrderedIsDisciplined(Body(calls[0]), [], Program(calls[1..]));
    }
  }

  // ----- many CPUs -----

  /** What is left to do, and the locks taken so far. */
  datatype Cpu = Cpu(rest: seq<Op>, held: seq<Lock>)

  /** `words` are the mutexes that read 1. They do not say whose they are. */
  datatype Machine = Machine(words: set<Lock>, cpus: seq<Cpu>)

  /** One step of CPU `i`: a compare-and-swap that finds 0, or the store of 0. */
  ghost function Step(s: Machine, i: nat): Option<Machine>
    requires i < |s.cpus|
  {
    var cpu := s.cpus[i];
    if cpu.rest == [] then None
    else match cpu.rest[0]
      case Acquire(l) =>
        if l in s.words then None
        else Some(Machine(s.words + {l}, s.cpus[i := Cpu(cpu.rest[1..], cpu.held + [l])]))
      case Release(l) =>
        var held := if cpu.held == [] then [] else cpu.held[..|cpu.held| - 1];
        Some(Machine(s.words - {l}, s.cpus[i := Cpu(cpu.rest[1..], held)]))
  }

  ghost predicate Starts(s: Machine) {
    && s.words == {}
    && forall i :: 0 <= i < |s.cpus| ==> s.cpus[i].held == [] && exists calls :: s.cpus[i].rest == Program(calls)
  }

  ghost predicate Ascending(held: seq<Lock>) {
    forall x, y :: 0 <= x < y < |held| ==> Rank(held[x]) < Rank(held[y])
  }

  /** A lock reads 1 exactly when one CPU holds it, and never do two. */
  ghost predicate Inv(s: Machine) {
    && (forall i :: 0 <= i < |s.cpus| ==> Disciplined(s.cpus[i].rest, s.cpus[i].held) && Ascending(s.cpus[i].held))
    && (forall l :: l in s.words <==> Held(s.cpus, l))
    && OneHolder(s)
  }

  ghost predicate Held(cpus: seq<Cpu>, l: Lock) {
    exists i :: 0 <= i < |cpus| && l in cpus[i].held
  }

  ghost predicate OneHolder(s: Machine) {
    forall i, j, l :: 0 <= i < |s.cpus| && 0 <= j < |s.cpus| && l in s.cpus[i].held && l in s.cpus[j].held ==> i == j
  }

  // ----- every run -----

  ghost predicate IsRun(run: seq<Machine>) {
    && run != [] && Starts(run[0])
    && (forall k :: 0 <= k < |run| ==> |run[k].cpus| == |run[0].cpus|)
    && forall k :: 0 <= k < |run| - 1 ==> exists i: nat :: i < |run[k].cpus| && Step(run[k], i) == Some(run[k + 1])
  }

  lemma StartHolds(s: Machine)
    requires Starts(s)
    ensures Inv(s)
  {
    forall i | 0 <= i < |s.cpus|
      ensures Disciplined(s.cpus[i].rest, s.cpus[i].held)
    {
      var calls :| s.cpus[i].rest == Program(calls);
      ProgramsAreDisciplined(calls);
    }
  }

  lemma PushAscends(held: seq<Lock>, l: Lock)
    requires Ascending(held) && Rank(l) > Top(held)
    ensures Ascending(held + [l]) && l !in held
  {
    if l in held {
      RankOfHeld(held, l);
    }
  }

  lemma PopDescends(held: seq<Lock>)
    requires Ascending(held) && held != []
    ensures var l, below := held[|held| - 1], held[..|held| - 1];
            Ascending(below) && l !in below && forall m :: m in held <==> m in below || m == l
  {
    var below := held[..|held| - 1];
    assert held == below + [held[|held| - 1]];
  }

  ghost predicate HeldBesides(cpus: seq<Cpu>, i: nat, l: Lock) {
    exists j :: 0 <= j < |cpus| && j != i && l in cpus[j].held
  }

  lemma HeldAfter(cpus: seq<Cpu>, i: nat, c: Cpu, l: Lock)
    requires i < |cpus|
    ensures Held(cpus, l) <==> l in cpus[i].held || HeldBesides(cpus, i, l)
    ensures Held(cpus[i := c], l) <==> l in c.held || HeldBesides(cpus, i, l)
  {
    var after := cpus[i := c];
    if HeldBesides(cpus, i, l) {
      var j :| 0 <= j < |cpus| && j != i && l in cpus[j].held;
      assert l in after[j].held;
    }
    if l in c.held {
      assert l in after[i].held;
    }
  }

  lemma StepKeeps(s: Machine, t: Machine, i: nat)
    requires Inv(s) && i < |s.cpus| && Step(s, i) == Some(t)
    ensures Inv(t)
  {
    hide Rank, Ascending, Held;
    var cpu := s.cpus[i];
    match cpu.rest[0] {
      case Acquire(l) => PushAscends(cpu.held, l);
      case Release(l) => PopDescends(cpu.held);
    }
    forall m
      ensures m in t.words <==> Held(t.cpus, m)
    {
      WordsFollow(s, t, i, m);
    }
    assert OneHolder(t) by {
      StepKeepsOneHolder(s, t, i);
    }
  }

  lemma WordsFollow(s: Machine, t: Machine, i: nat, m: Lock)
    requires Inv(s) && i < |s.cpus| && Step(s, i) == Some(t)
    ensures m in t.words <==> Held(t.cpus, m)
  {
    var held := s.cpus[i].held;
    HeldAfter(s.cpus, i, t.cpus[i], m);
    if s.cpus[i].rest[0].Release? {
      PopDescends(held);
      assert !HeldBesides(s.cpus, i, held[|held| - 1]);
    }
    hide Rank, Ascending, Held, HeldBesides, Disciplined;
  }

  lemma StepKeepsOneHolder(s: Machine, t: Machine, i: nat)
    requires Inv(s) && i < |s.cpus| && Step(s, i) == Some(t)
    ensures OneHolder(t)
  {
    hide Rank, Ascending;
    forall j, k, m | 0 <= j < |t.cpus| && 0 <= k < |t.cpus| && m in t.cpus[j].held && m in t.cpus[k].held
      ensures j == k
    {
      assert m in s.cpus[j].held || (j == i && m !in s.words);
      assert m in s.cpus[k].held || (k == i && m !in s.words);
      assert m in s.cpus[j].held ==> Held(s.cpus, m);
      assert m in s.cpus[k].held ==> Held(s.cpus, m);
    }
  }

  /** Mutual exclusion: in every run at most one CPU holds a lock, and exactly while it reads 1. */
  lemma {:induction false} RunsExclude(run: seq<Machine>, k: nat)
    requires IsRun(run) && k < |run|
    ensures Inv(run[k])
  {
    if k == 0 {
      StartHolds(run[0]);
    } else {
      RunsExclude(run, k - 1);
      assert run[k - 1 + 1] == run[k];
      var i: nat :| i < |run[k - 1].cpus| && Step(run[k - 1], i) == Some(run[k]);
      StepKeeps(run[k - 1], run[k], i);
    }
  }

  // ----- who is inside a call -----

  /** The lock a call holds from its first step to its last, on the paths that have one. */
  function Guard(c: Call): Option<Lock> {
    match c
    case Print => Some(Printf)
    case Kmalloc => Some(Malloc)
    case Kfree => Some(Free)
    case PmmCall => Some(Pmm)
    case Krealloc(zero, noPtr, fits) => if zero || !noPtr then Some(Realloc) else None
    case PoolCreation => Some(PoolCreate)
    case PoolAllocation => Some(PoolAlloc)
    case PoolRelease => Some(PoolFree)
    case PoolResize(zero, noPtr, fits) => if zero || !noPtr then Some(PoolRealloc) else None
    case VfsMount(absolute, nodes) => Some(if absolute then Vfs else Printf)
    case CreateTask(pages) => Some(Sched)
    case QueueTask(copies) => None
    case SwitchTask => Some(TaskSwitch)
    case LoadFile(end) => None
    case Run(created, isElf, taskPages, pages, copies) => if created && isElf then Some(ExecLock) else None
    case Exec(end, created, isElf, taskPages, pages, copies) => None
  }

  /** Call `c` has begun and not ended, and `calls` come after it. */
  ghost predicate InsideBefore(rest: seq<Op>, c: Call, done: nat, calls: seq<Call>) {
    0 < done < |Trace(Body(c))| && rest == Trace(Body(c))[done..] + Program(calls)
  }

  ghost predicate Inside(rest: seq<Op>, c: Call) {
    exists done: nat, calls :: InsideBefore(rest, c, done, calls)
  }

  /** What releases a lock it does not take must hold it. */
  lemma {:induction false} ReleasesHeld(now: seq<Op>, l: Lock, after: seq<Op>, held: seq<Lock>)
    requires Disciplined(now + ([Release(l)] + after), held) && Acquire(l) !in now
    ensures l in held
    decreases |now|
  {
    if now == [] {
      assert now + ([Release(l)] + after) == [Release(l)] + after;
    } else {
      var rest := now + ([Release(l)] + after);
      assert rest[0] == now[0] && rest[1..] == now[1..] + ([Release(l)] + after);
      match now[0]
      case Acquire(m) => ReleasesHeld(now[1..], l, after, held + [m]);
      case Release(m) => ReleasesHeld(now[1..], l, after, held[..|held| - 1]);
    }
  }

  lemma {:induction false} TakesAbove(w: Work, l: Lock)
    requires Ordered(w, Rank(l))
    ensures Acquire(l) !in Trace(w)
  {
    TakesAboveFloor(w, Rank(l), l);
  }

  lemma {:induction false} TakesAboveFloor(w: Work, floor: int, l: Lock)
    requires Ordered(w, floor) && Rank(l) <= floor
    ensures Acquire(l) !in Trace(w)
  {
    hide Rank;
    match w
    case Idle =>
    case Locked(m, body) =>
      RanksTellLocksApart(m, l);
      TakesAboveFloor(body, Rank(m), l);
    case Then(first, second) =>
      TakesAboveFloor(first, floor, l);
      TakesAboveFloor(second, floor, l);
  }

  /** Between its first step and its last a call holds its lock. */
  lemma HoldsItsLock(rest: seq<Op>, held: seq<Lock>, c: Call)
    requires Inside(rest, c) && Disciplined(rest, held) && Guard(c).Some?
    ensures Guard(c).value in held
  {
    hide *;
    var l := Guard(c).value;
    var body := GuardedBody(c);
    CallsAreOrdered(c);
    OrderedInside(l, body);
    TakesAbove(body, l);
    var now, after := WhatIsLeft(rest, c, l, body);
    ReleasesHeld(now, l, after, held);
  }

  lemma OrderedInside(l: Lock, body: Work)
    requires Ordered(Locked(l, body), -1)
    ensures Ordered(body, Rank(l))
  {
  }

  lemma WhatIsLeft(rest: seq<Op>, c: Call, l: Lock, body: Work) returns (now: seq<Op>, after: seq<Op>)
    requires Inside(rest, c) && Body(c) == Locked(l, body)
    ensures rest == now + ([Release(l)] + after) && forall op :: op in now ==> op in Trace(body)
  {
    hide Body, Program, Trace;
    var done: nat, calls :| InsideBefore(rest, c, done, calls);
    var t := Trace(body);
    LockedTrace(l, body);
    now, after := t[done - 1..], Program(calls);
    EndOfWrapped(Acquire(l), t, Release(l), done, after);
  }

  lemma LockedTrace(l: Lock, body: Work)
    ensures Trace(Locked(l, body)) == [Acquire(l)] + Trace(body) + [Release(l)]
  {
  }

  lemma EndOfWrapped<T>(x: T, t: seq<T>, y: T, done: nat, after: seq<T>)
    requires 0 < done < |t| + 2
    ensures ([x] + t + [y])[done..] + after == t[done - 1..] + ([y] + after)
  {
    assert ([x] + t + [y])[done..] == t[done - 1..] + [y];
  }

  lemma GuardedBody(c: Call) returns (body: Work)
    requires Guard(c).Some?
    ensures Body(c) == Locked(Guard(c).value, body)
  {
    body := Body(c).body;
  }

  /** In every run no two CPUs are inside calls with the same lock, as two calls of vfs_mount are. */
  lemma OneIsInside(run: seq<Machine>, k: nat, i: nat, j: nat, c: Call, d: Call)
    requires IsRun(run) && k < |run| && i < |run[k].cpus| && j < |run[k].cpus|
    requires Inside(run[k].cpus[i].rest, c) && Inside(run[k].cpus[j].rest, d)
    requires Guard(c).Some? && Guard(c) == Guard(d)
    ensures i == j
  {
    RunsExclude(run, k);
    HoldsItsLock(run[k].cpus[i].rest, run[k].cpus[i].held, c);
    HoldsItsLock(run[k].cpus[j].rest, run[k].cpus[j].held, d);
  }

  lemma OneMounts(run: seq<Machine>, k: nat, i: nat, j: nat, m: nat, n: nat)
    requires IsRun(run) && k < |run| && i < |run[k].cpus| && j < |run[k].cpus|
    requires Inside(run[k].cpus[i].rest, VfsMount(true, m)) && Inside(run[k].cpus[j].rest, VfsMount(true, n))
    ensures i == j && Vfs in run[k].cpus[i].held
  {
    OneIsInside(run, k, i, j, VfsMount(true, m), VfsMount(true, n));
    RunsExclude(run, k);
    HoldsItsLock(run[k].cpus[i].rest, run[k].cpus[i].held, VfsMount(true, m));
  }

  // ----- no deadlock -----

  /** A CPU with work left can step, or someone it waits for can: whoever holds the lock it wants
      wants only higher-ranked ones. */
  lemma {:induction false} SomeoneCanStep(s: Machine, i: nat) returns (j: nat)
    requires Inv(s) && i < |s.cpus| && s.cpus[i].rest != []
    ensures j < |s.cpus| && Step(s, j).Some?
    decreases RANKS - if s.cpus[i].rest[0].Acquire? then Rank(s.cpus[i].rest[0].l) else 0
  {
    hide Rank;
    if Step(s, i).Some? {
      return i;
    }
    var l := s.cpus[i].rest[0].l;
    var h :| 0 <= h < |s.cpus| && l in s.cpus[h].held;
    var cpu := s.cpus[h];
    if Step(s, h).Some? {
      return h;
    }
    RankOfHeld(cpu.held, l);
    RanksTellLocksApart(cpu.rest[0].l, l);
    j := SomeoneCanStep(s, h);
  }

  lemma RankOfHeld(held: seq<Lock>, l: Lock)
    requires Ascending(held) && l in held
    ensures Rank(l) <= Top(held)
  {
  }

  /** When nobody can step any more, every call has run to its end and every lock is free again. */
  lemma RunsEndReleased(run: seq<Machine>, k: nat)
    requires IsRun(run) && k < |run| && forall i :: 0 <= i < |run[k].cpus| ==> Step(run[k], i).None?
    ensures run[k].words == {} && forall i :: 0 <= i < |run[k].cpus| ==> run[k].cpus[i] == Cpu([], [])
  {
    RunsExclude(run, k);
    forall i | 0 <= i < |run[k].cpus|
      ensures run[k].cpus[i] == Cpu([], [])
    {
      if run[k].cpus[i].rest != [] {
        var j := SomeoneCanStep(run[k], i);
        assert false;
      }
    }
  }

  ghost function StepsLeft(cpus: seq<Cpu>): nat {
    if cpus == [] then 0 else StepsLeft(cpus[..|cpus| - 1]) + |cpus[|cpus| - 1].rest|
  }

  lemma {:induction false} StepsLeftChange(cpus: seq<Cpu>, i: nat, c: Cpu)
    requires i < |cpus|
    ensures StepsLeft(cpus[i := c]) == StepsLeft(cpus) - |cpus[i].rest| + |c.rest|
  {
    var last := |cpus| - 1;
    if i < last {
      StepsLeftChange(cpus[..last], i, c);
      assert cpus[i := c][..last] == cpus[..last][i := c];
    } else {
      assert cpus[i := c][..last] == cpus[..last];
    }
  }

  /** No run goes on for ever. */
  lemma {:induction false} RunsAreShort(run: seq<Machine>, k: nat)
    requires IsRun(run) && k < |run|
    ensures StepsLeft(run[k].cpus) == StepsLeft(run[0].cpus) - k
  {
    hide Step, StepsLeft, Starts;
    if k > 0 {
      RunsAreShort(run, k - 1);
      assert run[k - 1 + 1] == run[k];
      var i: nat :| i < |run[k - 1].cpus| && Step(run[k - 1], i) == Some(run[k]);
      StepIsOne(run[k - 1], run[k], i);
    }
  }

  lemma StepIsOne(s: Machine, t: Machine, i: nat)
    requires i < |s.cpus| && Step(s, i) == Some(t)
    ensures StepsLeft(t.cpus) == StepsLeft(s.cpus) - 1
  {
    StepsLeftChange(s.cpus, i, t.cpus[i]);
  }
}
