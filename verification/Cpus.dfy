/** All CPUs of the machine together: the boot processor's list, which is the queue, and the lists
    that copies of its tasks go to. */
module Cpus {
  import opened Arith
  import opened Balance
  import opened RunQueue

  const SINGLE_CORE_MAX: nat := 4  // SCHED_SINGLE_CORE_MAX_TASKS
  const PID_RANGE: nat := 0x1_0000

  lemma FourTasksOnOneCore()
    ensures SINGLE_CORE_MAX == 4
  {
  }

  datatype Call = Create | Queue | TimerOn(c: nat) | BootTimer

  /** `boot` has the root task in front; `next` is added_task_idx. */
  datatype Machine = Machine(pid: nat, boot: Core, cores: seq<Core>, distributed: bool, next: nat)
  {
    ghost predicate Ok() {
      && boot.Ok() && boot.states != [] && next < |cores| && pid < PID_RANGE
      && forall c :: 0 <= c < |cores| ==> cores[c].Ok()
    }

    predicate Distributes() {
      !distributed && |cores| > 1 && pid > SINGLE_CORE_MAX
    }
  }

  /** The states of the copies that CPU `c` gets of the tasks from `from` on. */
  function Given(homes: seq<nat>, from: nat, states: seq<State>, c: nat): (s: seq<State>)
    requires |homes| <= |states|
    ensures homes == [] ==> s == []
  {
    if |homes| <= from then []
    else
      var last := |homes| - 1;
      Given(homes[..last], from, states, c) + if homes[last] == c then [states[last]] else []
  }

  /** The CPUs' lists after the tasks from `from` on have been copied. */
  function Filled(cores: seq<Core>, homes: seq<nat>, from: nat, states: seq<State>): (s: seq<Core>)
    requires |homes| <= |states|
    ensures |s| == |cores|
  {
    seq(|cores|, c requires 0 <= c < |cores| => Core(cores[c].states + Given(homes, from, states, c), cores[c].running))
  }

  function Added(c: Core, s: State): Core {
    Core(c.states + [s], c.running)
  }

  lemma FilledNothing(cores: seq<Core>, homes: seq<nat>, states: seq<State>)
    requires |homes| <= |states|
    ensures Filled(cores, homes, |homes|, states) == cores
  {
    forall c | 0 <= c < |cores|
      ensures Filled(cores, homes, |homes|, states)[c] == cores[c]
    {
      assert cores[c].states + [] == cores[c].states;
    }
  }

  lemma FilledStep(cores: seq<Core>, homes: seq<nat>, from: nat, states: seq<State>, c: nat)
    requires from <= |homes| < |states| && c < |cores|
    ensures var now := Filled(cores, homes, from, states);
            Filled(cores, homes + [c], from, states) == now[c := Added(now[c], states[|homes|])]
  {
    var now, more := Filled(cores, homes, from, states), homes + [c];
    assert more[..|more| - 1] == homes;
    forall d | 0 <= d < |cores|
      ensures Filled(cores, more, from, states)[d] == now[c := Added(now[c], states[|homes|])][d]
    {
      assert Given(more, from, states, d) == Given(homes, from, states, d) + if c == d then [states[|homes|]] else [];
      assert cores[d].states + Given(homes, from, states, d) + [] == cores[d].states + Given(homes, from, states, d);
    }
  }

  /** The plan for the first `q` tasks. */
  function Plan(q: nat, share: nat, n: nat): (homes: seq<nat>)
    requires share > 0 && q > 0 && n > 0
    ensures |homes| == q && Follows(homes, q, share, n)
  {
    seq(q, k requires 0 <= k < q => Home(k, q, share, n))
  }

  /** Five tasks on four CPUs. */
  lemma FiveOnFour()
    ensures Plan(5, ShareSize(5, 4), 4) == [0, 1, 2, 3, 0]
  {
    QuotientIs(ShareSize(5, 4), 5, 4);
    var homes := Plan(5, 1, 4);
    assert Cut(5, 1, 4) == 4;
    assert homes[0] == 0 && homes[1] == 1 && homes[2] == 2 && homes[3] == 3 && homes[4] == 0;
  }

  // ----- one call -----

  /** The states of the tasks queued. */
  function BehindRoot(boot: Core): seq<State> {
    if boot.states == [] then [] else boot.states[1..]
  }

  /** The task linked last, in state `s`, goes out, alone or with all others. */
  function Dispatch(m: Machine, s: State): (d: Machine)
    requires m.Ok() && |m.boot.states| > 1
    ensures d.Ok() && |d.cores| == |m.cores|
  {
    if m.Distributes() then
      var tasks := BehindRoot(m.boot);
      var homes := Plan(|tasks|, ShareSize(m.pid, |m.cores|), |m.cores|);
      m.(cores := Filled(m.cores, homes, 0, tasks), distributed := true)
    else if m.distributed && |m.cores| > 1 then
      m.(cores := m.cores[m.next := Added(m.cores[m.next], s)], next := Turn(m.next + 1, |m.cores|))
    else m
  }

  ghost predicate Dispatches(m: Machine, s: State, d: Machine) {
    m.Ok() && |m.boot.states| > 1 && d == Dispatch(m, s)
  }

  lemma FirstDispatch(m: Machine, d: Machine, homes: seq<nat>, s: State)
    requires m.Ok() && |m.boot.states| > 1 && m.Distributes() && |homes| == |m.boot.states| - 1
    requires Follows(homes, |homes|, ShareSize(m.pid, |m.cores|), |m.cores|)
    requires d == m.(cores := Filled(m.cores, homes, 0, BehindRoot(m.boot)), distributed := true)
    ensures Dispatches(m, s, d)
  {
    assert homes == Plan(|homes|, ShareSize(m.pid, |m.cores|), |m.cores|);
  }

  /** sched_queue of a suspended task. */
  function QueueStep(m: Machine): (d: Machine)
    requires m.Ok()
    ensures d.Ok() && |d.cores| == |m.cores|
  {
    Dispatch(m.(boot := Step(m.boot, Queued)), Suspended)
  }

  function Next(m: Machine, call: Call): (d: Machine)
    requires m.Ok()
    ensures d.Ok() && |d.cores| == |m.cores|
  {
    match call
    case Create => m.(pid := (m.pid + 1) % PID_RANGE)
    case Queue => QueueStep(m)
    case TimerOn(c) => if c < |m.cores| then m.(cores := m.cores[c := Tick(m.cores[c])]) else m
    case BootTimer => m.(boot := Tick(m.boot))
  }

  ghost predicate Goes(m: Machine, call: Call, d: Machine) {
    m.Ok() && d == Next(m, call)
  }

  lemma QueueDispatches(m: Machine, d: Machine)
    requires m.Ok() && Dispatches(m.(boot := Added(m.boot, Suspended)), Suspended, d)
    ensures Goes(m, Queue, d)
  {
  }

  function After(m: Machine, calls: seq<Call>): (d: Machine)
    requires m.Ok()
    ensures d.Ok() && |d.cores| == |m.cores|
    decreases |calls|
  {
    if calls == [] then m else After(Next(m, calls[0]), calls[1..])
  }

  // ----- what each CPU sees of a run -----

  /** The events that `calls` are for the boot processor. */
  function OnBoot(calls: seq<Call>): seq<Event> {
    if calls == [] then []
    else (match calls[0]
          case Queue => [Queued]
          case BootTimer => [Timer]
          case _ => []) + OnBoot(calls[1..])
  }

  /** The events that `calls` are for CPU `c`, once the tasks are distributed. */
  function OnCpu(calls: seq<Call>, c: nat, next: nat, n: nat): seq<Event>
    requires next < n
    decreases |calls|
  {
    if calls == [] then []
    else match calls[0]
      case Queue => (if c == next then [Queued] else []) + OnCpu(calls[1..], c, Turn(next + 1, n), n)
      case TimerOn(d) => (if c == d then [Timer] else []) + OnCpu(calls[1..], c, next, n)
      case _ => OnCpu(calls[1..], c, next, n)
  }

  lemma {:induction false} BootSees(m: Machine, calls: seq<Call>)
    requires m.Ok()
    ensures After(m, calls).boot == Run(m.boot, OnBoot(calls))
    decreases |calls|
  {
    if calls != [] {
      BootSees(Next(m, calls[0]), calls[1..]);
      match calls[0]
      case Queue => assert OnBoot(calls) == [Queued] + OnBoot(calls[1..]);
      case BootTimer => assert OnBoot(calls) == [Timer] + OnBoot(calls[1..]);
      case _ => assert OnBoot(calls) == OnBoot(calls[1..]);
    }
  }

  /** In every run of calls on all CPUs each CPU runs as it would alone, on the events that are its. */
  lemma {:induction false} EachCpuSees(m: Machine, calls: seq<Call>, c: nat)
    requires m.Ok() && m.distributed && |m.cores| > 1 && c < |m.cores|
    ensures After(m, calls).cores[c] == Run(m.cores[c], OnCpu(calls, c, m.next, |m.cores|))
    decreases |calls|
  {
    hide Tick, QueueStep, Turn;
    if calls != [] {
      QueueWhenDistributed(m);
      var d, rest := Next(m, calls[0]), calls[1..];
      var more := OnCpu(rest, c, d.next, |m.cores|);
      EachCpuSees(d, rest, c);
      match calls[0]
      case Queue => RunOfOne(m.cores[c], d.cores[c], Queued, c == m.next, more);
      case TimerOn(i) => RunOfOne(m.cores[c], d.cores[c], Timer, c == i, more);
      case _ =>
    }
  }

  lemma QueueWhenDistributed(m: Machine)
    requires m.Ok() && m.distributed && |m.cores| > 1
    ensures QueueStep(m) == m.(boot := Step(m.boot, Queued), cores := m.cores[m.next := Step(m.cores[m.next], Queued)],
                               next := Turn(m.next + 1, |m.cores|))
  {
  }

  lemma RunOfOne(c: Core, d: Core, e: Event, mine: bool, more: seq<Event>)
    requires c.Ok() && d.Ok() && d == if mine then Step(c, e) else c
    ensures Run(c, (if mine then [e] else []) + more) == Run(d, more)
  {
    if mine {
      assert ([e] + more)[0] == e && ([e] + more)[1..] == more;
    } else {
      assert [] + more == more;
    }
  }

  // ----- from sched_init on -----

  function Started(n: nat): (m: Machine)
    requires n > 0
    ensures m.Ok() && |m.cores| == n
  {
    Machine(0, Core([Asleep], Some(0)), seq(n, _ => Core([], None)), false, 0)
  }

  /** The boot processor before its first switch, or with exactly its current task running; nothing
      handed out yet. */
  ghost predicate Gathering(m: Machine) {
    && m.boot.states != []
    && (|| m.boot.Clean()
        || (m.boot.running == Some(0) && m.boot.states[0] == Asleep
            && forall k :: 1 <= k < |m.boot.states| ==> m.boot.states[k] == Suspended))
    && !m.distributed && m.next == 0 && forall c :: 0 <= c < |m.cores| ==> m.cores[c] == Core([], None)
  }

  lemma StaysGathering(m: Machine, call: Call)
    requires m.Ok() && Gathering(m) && !Next(m, call).distributed
    ensures Gathering(Next(m, call))
  {
    match call
    case BootTimer =>
      if m.boot.Clean() {
        RunsStayClean(m.boot, [Timer]);
        assert Run(m.boot, [Timer]) == Tick(m.boot);
      } else {
        FirstTick(m.boot);
        if |m.boot.states| == 1 {
          assert m.boot.Next() == 0;
        }
      }
    case Queue => assert m.boot.Clean() ==> Step(m.boot, Queued).Clean();
    case _ =>
  }

  lemma {:induction false} StillGathering(m: Machine, calls: seq<Call>)
    requires m.Ok() && Gathering(m) && !After(m, calls).distributed
    ensures Gathering(After(m, calls))
    decreases |calls|
  {
    if calls != [] {
      var d := Next(m, calls[0]);
      if d.distributed {
        StaysDistributed(d, calls[1..]);
      } else {
        StaysGathering(m, calls[0]);
        StillGathering(d, calls[1..]);
      }
    }
  }

  lemma {:induction false} StaysDistributed(m: Machine, calls: seq<Call>)
    requires m.Ok() && m.distributed
    ensures After(m, calls).distributed
    decreases |calls|
  {
    if calls != [] {
      StaysDistributed(Next(m, calls[0]), calls[1..]);
    }
  }

  // ----- the copy of the task that was running -----

  lemma {:induction false} GivenIsShare(homes: seq<nat>, states: seq<State>, c: nat)
    requires |homes| <= |states|
    ensures |Given(homes, 0, states, c)| == |Share(homes, c)|
    ensures forall x :: 0 <= x < |Share(homes, c)| ==> Given(homes, 0, states, c)[x] == states[Share(homes, c)[x]]
  {
    if homes != [] {
      GivenIsShare(homes[..|homes| - 1], states, c);
    }
  }

  /** A task's place in its CPU's share is the number of earlier tasks there. */
  lemma {:induction false} PlaceInShare(homes: seq<nat>, k: nat)
    requires k < |homes|
    ensures var x := |Share(homes[..k], homes[k])|;
            x < |Share(homes, homes[k])| && Share(homes, homes[k])[x] == k
  {
    var last := |homes| - 1;
    if k < last {
      PlaceInShare(homes[..last], k);
      assert homes[..last][..k] == homes[..k];
    }
  }

  /** The distribution gives CPU `c` a copy of the running task as its third or a later one. */
  predicate TooLate(m: Machine, c: nat)
    requires m.Ok() && m.Distributes()
  {
    var q, n := |m.boot.states|, |m.cores|;
    var share, k := ShareSize(m.pid, n), m.boot.Previous() - 1;
    k >= 0 && m.boot.states[k + 1] == Running && c == Home(k, q, share, n) && Load(k, c, q, share, n) >= 2
  }

  lemma GivenListStartsClean(m: Machine, c: nat)
    requires m.Ok() && Gathering(m) && m.Distributes() && c < |m.cores|
    ensures QueueStep(m).cores[c].running == None
    ensures var s := QueueStep(m).cores[c].states;
            && (forall x :: 0 <= x < |s| ==> s[x] == Suspended || s[x] == Running)
            && (StartsClean(s) <==> !TooLate(m, c))
  {
    hide Home, Load, ShareSize, Filled, Given, StartsClean, Gathering, Follows;
    var q, n := |m.boot.states|, |m.cores|;
    var share, k := ShareSize(m.pid, n), m.boot.Previous() - 1;
    var tasks := BehindRoot(Step(m.boot, Queued));
    var homes := Plan(q, share, n);
    FirstLists(m, c);
    TaskStates(m);
    OneIsRunning(homes, tasks, c, k);
    if k >= 0 && homes[k] == c {
      PartFollows(homes, k, q, share, n);
      LoadIsExact(homes[..k], c, q, share, n);
    }
  }

  lemma PartFollows(homes: seq<nat>, k: nat, q: nat, share: nat, n: nat)
    requires share > 0 && q > 0 && n > 0 && k < |homes| && Follows(homes, q, share, n)
    ensures Follows(homes[..k], q, share, n) && homes[k] == Home(k, q, share, n)
  {
    hide Home;
  }

  /** The lists the distribution makes. */
  lemma FirstLists(m: Machine, c: nat)
    requires m.Ok() && Gathering(m) && m.Distributes() && c < |m.cores|
    ensures var q, n := |m.boot.states|, |m.cores|;
            var tasks := BehindRoot(Step(m.boot, Queued));
            && |tasks| == q
            && QueueStep(m).cores[c] == Core(Given(Plan(q, ShareSize(m.pid, n), n), 0, tasks, c), None)
  {
    hide Given, Plan, ShareSize;
    var q, n := |m.boot.states|, |m.cores|;
    var s := Given(Plan(q, ShareSize(m.pid, n), n), 0, BehindRoot(Step(m.boot, Queued)), c);
    assert [] + s == s;
  }

  /** The queued tasks' states: at most the boot processor's current one is running. */
  lemma TaskStates(m: Machine)
    requires m.Ok() && Gathering(m)
    ensures var tasks, k := BehindRoot(Step(m.boot, Queued)), m.boot.Previous() - 1;
            && |tasks| == |m.boot.states| && -1 <= k < |tasks|
            && (k >= 0 ==> tasks[k] == m.boot.states[k + 1] && (tasks[k] == Suspended || tasks[k] == Running))
            && forall j :: 0 <= j < |tasks| && j != k ==> tasks[j] == Suspended
  {
    var tasks := BehindRoot(Step(m.boot, Queued));
    forall j | 0 <= j < |tasks|
      ensures tasks[j] == if j + 1 < |m.boot.states| then m.boot.states[j + 1] else Suspended
    {
      assert tasks[j] == Step(m.boot, Queued).states[j + 1];
    }
  }

  /** A CPU's share of tasks of which only number `k` may be running. */
  lemma OneIsRunning(homes: seq<nat>, tasks: seq<State>, c: nat, k: int)
    requires |homes| == |tasks| && -1 <= k < |tasks|
    requires forall j :: 0 <= j < |tasks| && j != k ==> tasks[j] == Suspended
    requires k >= 0 ==> tasks[k] == Suspended || tasks[k] == Running
    ensures var s := Given(homes, 0, tasks, c);
            && (forall x :: 0 <= x < |s| ==> s[x] == Suspended || s[x] == Running)
            && (StartsClean(s) <==>
                !(k >= 0 && tasks[k] == Running && homes[k] == c && |Share(homes[..k], c)| >= 2))
  {
    GivenIsShare(homes, tasks, c);
    SharesPartition(homes, c);
    hide Given, Share;
    if k >= 0 && homes[k] == c {
      PlaceInShare(homes, k);
    }
  }

  /** From sched_init, whatever is created, queued and timed on whatever CPU before the tasks are
      distributed and after: a CPU is clean from its first tick with a task on, except for one that was
      given a copy of the boot processor's current task as its third task or later, which never is. */
  lemma RunsFromBoot(n: nat, before: seq<Call>, after: seq<Call>, c: nat, queued: seq<Event>, rest: seq<Event>)
    requires c < n
    requires var m := After(Started(n), before);
             var d := QueueStep(m);
             && m.Distributes() && OnCpu(after, c, d.next, n) == queued + [Timer] + rest && AllQueued(queued)
             && |d.cores[c].states| + |queued| > 0
    ensures var m := After(Started(n), before);
            After(QueueStep(m), after).cores[c].Clean() <==> !TooLate(m, c)
  {
    var m := After(Started(n), before);
    StillGathering(Started(n), before);
    GivenListStartsClean(m, c);
    EachCpuSees(QueueStep(m), after, c);
    RunsOfAGivenList(QueueStep(m).cores[c].states, queued, rest);
  }

  /** Creating and queueing `k` tasks. */
  function Tasks(k: nat): seq<Call> {
    if k == 0 then [] else Tasks(k - 1) + [Create, Queue]
  }

  lemma {:induction false} TasksQueued(k: nat)
    requires k <= SINGLE_CORE_MAX
    ensures var boot := Core([Asleep] + seq(k, _ => Suspended), Some(0));
            After(Started(2), Tasks(k)) == Started(2).(pid := k, boot := boot)
  {
    if k > 0 {
      hide After, Next, Started;
      TasksQueued(k - 1);
      AfterBoth(Started(2), Tasks(k - 1), [Create, Queue]);
      OneTaskQueued(After(Started(2), Tasks(k - 1)));
      assert [Asleep] + seq(k - 1, _ => Suspended) + [Suspended] == [Asleep] + seq(k, _ => Suspended);
    } else {
      assert [Asleep] + seq(0, _ => Suspended) == [Asleep];
    }
  }

  lemma OneTaskQueued(m: Machine)
    requires m.Ok() && m.pid < SINGLE_CORE_MAX && !m.distributed
    ensures After(m, [Create, Queue]) == m.(pid := m.pid + 1, boot := Step(m.boot, Queued))
  {
    hide Dispatch, After, QueueStep;
    AfterTwo(m, Create, Queue);
    NotYet(Next(m, Create));
  }

  lemma AfterTwo(m: Machine, a: Call, b: Call)
    requires m.Ok()
    ensures After(m, [a, b]) == Next(Next(m, a), b)
  {
    hide Next;
    assert [a, b][1..] == [b] && [b][1..] == [];
    assert After(Next(Next(m, a), b), []) == Next(Next(m, a), b);
    assert After(Next(m, a), [b]) == Next(Next(m, a), b);
  }

  lemma NotYet(m: Machine)
    requires m.Ok() && m.pid <= SINGLE_CORE_MAX && !m.distributed
    ensures QueueStep(m) == m.(boot := Step(m.boot, Queued))
  {
  }

  /** That happens: with two CPUs, four tasks queued, the third of them current, and four more created
      when the fifth is queued, the first CPU is given the current task as its third. */
  lemma ThirdCopyIsRunning()
    ensures var m := After(Started(2), Tasks(4) + [BootTimer, BootTimer, BootTimer] + [Create, Create, Create, Create]);
            m.Distributes() && TooLate(m, 0)
  {
    var timers, creates := [BootTimer, BootTimer, BootTimer], [Create, Create, Create, Create];
    TasksQueued(4);
    AfterBoth(Started(2), Tasks(4), timers);
    AfterBoth(Started(2), Tasks(4) + timers, creates);
    var a := After(Started(2), Tasks(4));
    ThreeTimers(a);
    FourCreated(After(a, timers));
  }

  lemma ThreeTimers(m: Machine)
    requires m.Ok() && m.boot == Core([Asleep] + seq(4, _ => Suspended), Some(0))
    ensures After(m, [BootTimer, BootTimer, BootTimer]) ==
            m.(boot := Core([Suspended, Suspended, Suspended, Running, Suspended], Some(3)))
  {
    hide Next, Tick, After;
    var b := m.(boot := Core([Suspended, Running, Suspended, Suspended, Suspended], Some(1)));
    var c := m.(boot := Core([Suspended, Suspended, Running, Suspended, Suspended], Some(2)));
    var d := m.(boot := Core([Suspended, Suspended, Suspended, Running, Suspended], Some(3)));
    TimerAtBoot(m, b);
    TimerAtBoot(b, c);
    TimerAtBoot(c, d);
    AfterThree(m, BootTimer, BootTimer, BootTimer);
  }

  lemma AfterThree(m: Machine, a: Call, b: Call, c: Call)
    requires m.Ok()
    ensures After(m, [a, b, c]) == Next(Next(Next(m, a), b), c)
  {
    hide Next;
    assert [a, b, c][1..] == [b, c];
    AfterTwo(Next(m, a), b, c);
  }

  lemma TimerAtBoot(m: Machine, d: Machine)
    requires m.Ok() && |m.boot.states| > m.boot.Previous() + 1 && m.boot.states[m.boot.Previous() + 1] == Suspended
    requires var k := m.boot.Previous();
             d == m.(boot := Core(m.boot.states[k := Suspended][k + 1 := Running], Some(k + 1)))
    ensures Next(m, BootTimer) == d
  {
  }

  lemma FourCreated(m: Machine)
    requires m.Ok() && m.pid == 4
    ensures After(m, [Create, Create, Create, Create]) == m.(pid := 8)
  {
    assert After(m, [Create, Create, Create, Create]) == Next(Next(Next(Next(m, Create), Create), Create), Create);
  }

  lemma {:induction false} AfterBoth(m: Machine, p: seq<Call>, q: seq<Call>)
    requires m.Ok()
    ensures After(m, p + q) == After(After(m, p), q)
    decreases |p|
  {
    if p == [] {
      assert p + q == q;
    } else {
      assert (p + q)[0] == p[0] && (p + q)[1..] == p[1..] + q;
      AfterBoth(Next(m, p[0]), p[1..], q);
    }
  }
}
