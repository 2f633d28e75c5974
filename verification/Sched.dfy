/** Queueing tasks and distributing copies of them over the CPUs. */
module Sched {
  import opened Arith
  import opened Balance
  import opened RunQueue
  import opened Cpus

  /** The fields a copy shares with its original. */
  datatype Info = Info(name: string, pid: nat, context: nat, children: nat)

  class Task {
    const info: Info
    var state: State
    var assignedTo: int

    constructor (info: Info, state: State, assignedTo: int)
      ensures this.info == info && this.state == state && this.assignedTo == assignedTo
    {
      this.info, this.state, this.assignedTo := info, state, assignedTo;
    }
  }

  ghost function States(tasks: seq<Task>): (s: seq<State>)
    reads tasks
    ensures |s| == |tasks|
  {
    seq(|tasks|, k requires 0 <= k < |tasks| reads tasks => tasks[k].state)
  }

  class Processor {
    const cpuId: int
    var tasks: seq<Task>       // the list from `root` on
    var running: Option<nat>   // where `running_task` points in it

    constructor (cpuId: int)
      ensures this.cpuId == cpuId && tasks == [] && running == None
    {
      this.cpuId := cpuId;
      tasks, running := [], None;
    }

    ghost function Now(): Core
      reads this, tasks
    {
      Core(States(tasks), running)
    }

    /** switch_task with save_task_context_and_switch. `loads` says whether the CPU takes over the
        task's registers, which it does not for the root task. */
    method SwitchTask(interrupted: bool) returns (loads: bool)
      requires Distinct(tasks) && Now().Ok()
      modifies this`running, tasks`state
      ensures Now() == Tick(old(Now()))
      ensures loads == (tasks != [] && interrupted && tasks[running.value].info.pid > 0
                && old(Now().states[Now().Next()]) == Suspended)
    {
      loads := false;
      if tasks != [] {
        if running == None {
          running := Some(0);
        }
        var prev := tasks[running.value];
        if running.value + 1 < |tasks| {
          running := Some(running.value + 1);
        } else {
          running := Some(0);
        }
        var next := tasks[running.value];
        if next.state == Suspended {
          prev.state := Suspended;
          next.state := State.Running;
          loads := next.info.pid > 0 && interrupted;
        }
      }
      assert Now().states == Tick(old(Now())).states;
    }
  }

  ghost predicate Distinct<T>(s: seq<T>) {
    forall i, j :: 0 <= i < j < |s| ==> s[i] != s[j]
  }

  ghost predicate NothingShared<T>(s: seq<T>, t: seq<T>) {
    forall i, j :: 0 <= i < |s| && 0 <= j < |t| ==> s[i] != t[j]
  }

  /** A CPU's list: copies of its share of the queue, in queue order, that name this CPU. */
  ghost predicate Copies(tasks: seq<Task>, queue: seq<Task>, homes: seq<nat>, c: nat, id: int)
    requires |homes| <= |queue|
    reads tasks`assignedTo
  {
    var share := Share(homes, c);
    && |tasks| == |share|
    && forall x :: 0 <= x < |share| ==>
         tasks[x].info == queue[share[x]].info && tasks[x].assignedTo == id
  }

  /** What the CPUs hold: their lists, and the states in them. */
  datatype Holding = Holding(lists: seq<seq<Task>>, cores: seq<Core>)

  /** Every list has only grown at its end. */
  ghost predicate OnTop(before: seq<seq<Task>>, now: seq<seq<Task>>) {
    |before| == |now| && forall c :: 0 <= c < |now| ==> before[c] <= now[c]
  }

  /** From `before` to `now` copies of the tasks from `from` on were linked behind the lists. */
  ghost predicate HandedOut(before: Holding, now: Holding, homes: seq<nat>, from: nat, states: seq<State>) {
    && from <= |homes| <= |states| && OnTop(before.lists, now.lists)
    && now.cores == Filled(before.cores, homes, from, states)
  }

  lemma NothingHandedOut(now: Holding, homes: seq<nat>, states: seq<State>)
    requires |homes| <= |states|
    ensures HandedOut(now, now, homes, |homes|, states)
  {
    FilledNothing(now.cores, homes, states);
  }

  /** CPU `c` is given a copy of the next task. */
  ghost predicate Gains(now: Holding, after: Holding, c: nat, s: State) {
    && c < |now.cores| && after.cores == now.cores[c := Added(now.cores[c], s)]
    && OnTop(now.lists, after.lists)
  }

  ghost predicate Ticked(before: seq<Core>, now: seq<Core>, c: nat) {
    c < |before| && before[c].Ok() && now == before[c := Tick(before[c])]
  }

  lemma OneMoreHandedOut(before: Holding, now: Holding, after: Holding, homes: seq<nat>, from: nat, states: seq<State>,
                         c: nat)
    requires HandedOut(before, now, homes, from, states) && |homes| < |states|
    requires Gains(now, after, c, states[|homes|])
    ensures HandedOut(before, after, homes + [c], from, states)
  {
    FilledStep(before.cores, homes, from, states, c);
  }

  class Scheduler {
    const cpus: seq<Processor>
    const boot: Processor      // the boot processor's own record, which is not among `cpus`
    const root: Task
    var queue: seq<Task>       // behind the root task
    var pid: nat
    var distributed: bool
    var nextCpu: nat           // added_task_idx
    ghost var homes: seq<nat>  // the CPU of each task assigned so far, a prefix of the queue
    ghost var copies: set<Task>
    ghost var first: nat       // tasks queued at the distribution
    ghost var share: nat       // its share

    ghost predicate Assigned()
      reads this`homes, this`queue, queue`assignedTo
    {
      && |cpus| > 0 && |homes| <= |queue|
      && Distinct(cpus) && Distinct(queue)
      && (forall c :: 0 <= c < |cpus| ==> cpus[c].cpuId >= 0)
      && (forall k :: 0 <= k < |homes| ==> homes[k] < |cpus|)
      && forall k :: 0 <= k < |queue| ==> queue[k].assignedTo == if k < |homes| then cpus[homes[k]].cpuId else -1
    }

    /** No task is in two places; the boot processor's list is the root task and the queue. */
    ghost predicate Apart()
      reads this`queue, this`copies, boot`tasks, cpus`tasks
    {
      && boot !in cpus && boot.tasks == [root] + queue && root !in queue && root !in copies
      && (forall k :: 0 <= k < |queue| ==> queue[k] !in copies)
      && Within()
      && (forall c :: 0 <= c < |cpus| ==> Distinct(cpus[c].tasks))
      && forall c, d :: 0 <= c < d < |cpus| ==> NothingShared(cpus[c].tasks, cpus[d].tasks)
    }

    ghost predicate Pointing(p: Processor)
      reads p
    {
      p.running.Some? ==> p.running.value < |p.tasks|
    }

    /** Every CPU holds its share of the tasks assigned so far. */
    ghost predicate Spread()
      reads this`homes, this`queue, this`copies, boot, cpus, queue, copies
    {
      && Assigned() && Apart() && Pointing(boot)
      && (forall c :: 0 <= c < |cpus| ==> Pointing(cpus[c]))
      && forall c :: 0 <= c < |cpus| ==> Copies(cpus[c].tasks, queue, homes, c, cpus[c].cpuId)
    }

    /** Before the distribution nothing is assigned; from then on every queued task is, where the
        plan says. */
    ghost predicate Valid()
      reads this, boot, cpus, queue, copies
    {
      && Spread() && pid < PID_RANGE
      && if distributed then
           |cpus| > 1 && |homes| == |queue| && Planned(homes, first, share, |cpus|, nextCpu)
         else homes == [] && nextCpu == 0
    }

    ghost predicate Within()
      reads this`copies, cpus`tasks
    {
      forall c, x :: 0 <= c < |cpus| && 0 <= x < |cpus[c].tasks| ==> cpus[c].tasks[x] in copies
    }

    ghost function Held(): Holding
      reads this`copies, cpus, copies
    {
      var all := copies;
      if Within() then
        Holding(seq(|cpus|, c requires 0 <= c < |cpus| reads cpus => cpus[c].tasks),
                seq(|cpus|, c requires 0 <= c < |cpus| && (forall t :: t in cpus[c].tasks ==> t in all)
                            reads cpus, all => cpus[c].Now()))
      else Holding([], [])
    }

    /** The whole machine as the run theorems see it. */
    ghost function Now(): Machine
      reads this, boot, boot.tasks, cpus, copies
    {
      Machine(pid, boot.Now(), Held().cores, distributed, nextCpu)
    }

    /** sched_init, on the boot processor. */
    constructor (cpus: seq<Processor>, boot: Processor)
      requires |cpus| > 0 && Distinct(cpus) && boot !in cpus
      requires forall c :: 0 <= c < |cpus| ==> cpus[c].cpuId >= 0 && cpus[c].tasks == [] && cpus[c].running == None
      modifies boot`tasks, boot`running
      ensures Valid() && this.cpus == cpus && this.boot == boot && queue == [] && fresh(root)
      ensures copies == {} && boot.tasks == [root]
      ensures Now() == Started(|cpus|)
    {
      this.cpus, this.boot := cpus, boot;
      queue, pid, distributed, nextCpu := [], 0, false, 0;
      homes, copies, first, share := [], {}, 0, 0;
      var t := new Task(Info("root", 0, 0, 0), Asleep, -1);
      root := t;
      new;
      boot.tasks, boot.running := [root], Some(0);
      assert boot.tasks == [root] + queue;
      assert boot.Now() == Core([Asleep], Some(0));
      assert Held().cores == Started(|cpus|).cores;
    }

    /** A copy of `t` behind a CPU's last task. */
    method Link(cpu: Processor, t: Task, ghost c: nat) returns (ghost copy: Task)
      requires Apart() && Assigned() && c < |cpus| && cpu == cpus[c] && t in queue
      modifies cpu`tasks, this`copies
      ensures Apart() && Assigned() && copies == old(copies) + {copy} && fresh(copy)
      ensures cpu.tasks == old(cpu.tasks) + [copy] && copy.info == t.info && copy.assignedTo == t.assignedTo
      ensures Gains(old(Held()), Held(), c, t.state) && boot.Now() == old(boot.Now())
    {
      hide Gains, Distinct, NothingShared;
      var made := new Task(t.info, t.state, t.assignedTo);
      Attach(cpu, made, c);
      copy := made;
    }

    method Attach(cpu: Processor, copy: Task, ghost c: nat)
      requires Apart() && Assigned() && c < |cpus| && cpu == cpus[c]
      requires copy !in copies && copy !in queue && copy != root
      modifies cpu`tasks, this`copies
      ensures Apart() && Assigned() && copies == old(copies) + {copy} && cpu.tasks == old(cpu.tasks) + [copy]
      ensures Gains(old(Held()), Held(), c, copy.state) && boot.Now() == old(boot.Now())
    {
      hide Share;
      cpu.tasks := cpu.tasks + [copy];
      copies := copies + {copy};
      assert Apart();
      assert cpu.Now().states == old(cpu.Now().states) + [copy.state];
      assert Held().cores == old(Held()).cores[c := Added(old(Held()).cores[c], copy.state)];
    }

    /** copy_task_to_cpu, for the first task not assigned yet. */
    method CopyToCpu(cpu: Processor, t: Task, ghost c: nat)
      requires Spread() && c < |cpus| && cpu == cpus[c] && |homes| < |queue| && t == queue[|homes|]
      modifies this`homes, this`copies, cpu`tasks, t`assignedTo
      ensures Spread() && homes == old(homes) + [c]
      ensures (forall x :: x in copies ==> x in old(copies) || fresh(x))
      ensures Gains(old(Held()), Held(), c, t.state) && boot.Now() == old(boot.Now())
    {
      hide Share, Gains, Apart, Held, Processor.Now, Assigned, Distinct;
      AssignedParts();
      AwayFromLists(t);
      ghost var copy := CopyAndLink(cpu, t, c);
      AssignedParts();
      forall d | 0 <= d < |cpus|
        ensures Copies(cpus[d].tasks, queue, homes, d, cpus[d].cpuId)
      {
        assert Copies(old(cpus[d].tasks), queue, old(homes), d, cpus[d].cpuId);
        ShareGrows(old(homes), d, c);
      }
    }

    method CopyAndLink(cpu: Processor, t: Task, ghost c: nat) returns (ghost copy: Task)
      requires Assigned() && Apart() && c < |cpus| && cpu == cpus[c] && |homes| < |queue| && t == queue[|homes|]
      modifies this`homes, this`copies, cpu`tasks, t`assignedTo
      ensures Assigned() && Apart() && homes == old(homes) + [c] && copies == old(copies) + {copy} && fresh(copy)
      ensures cpu.tasks == old(cpu.tasks) + [copy] && copy.info == t.info && copy.assignedTo == cpu.cpuId
      ensures Gains(old(Held()), Held(), c, t.state) && boot.Now() == old(boot.Now())
    {
      hide *;
      Assign(cpu, t, c);
      copy := Link(cpu, t, c);
    }

    lemma AwayFromLists(t: Task)
      requires Apart() && t in queue
      ensures forall c, x {:trigger cpus[c].tasks[x]} ::
                0 <= c < |cpus| && 0 <= x < |cpus[c].tasks| ==> cpus[c].tasks[x] != t
    {
    }

    lemma AssignedParts()
      requires Assigned()
      ensures Distinct(cpus) && |homes| <= |queue|
    {
    }

    method Assign(cpu: Processor, t: Task, ghost c: nat)
      requires Assigned() && Apart() && c < |cpus| && cpu == cpus[c] && |homes| < |queue| && t == queue[|homes|]
      modifies this`homes, t`assignedTo
      ensures Assigned() && Apart() && homes == old(homes) + [c] && t.assignedTo == cpu.cpuId
      ensures Held() == old(Held()) && boot.Now() == old(boot.Now())
    {
      t.assignedTo := cpu.cpuId;
      homes := homes + [c];
    }

    method HandOut(cpu: Processor, t: Task, ghost c: nat, ghost before: Holding)
      requires Spread() && c < |cpus| && cpu == cpus[c] && |homes| < |queue| && t == queue[|homes|]
      requires HandedOut(before, Held(), homes, 0, BehindRoot(boot.Now()))
      modifies this`homes, this`copies, cpu`tasks, t`assignedTo
      ensures Spread() && homes == old(homes) + [c]
      ensures (forall x :: x in copies ==> x in old(copies) || fresh(x)) && boot.Now() == old(boot.Now())
      ensures HandedOut(before, Held(), homes, 0, BehindRoot(boot.Now()))
    {
      hide *;
      NextTask(t);
      ghost var now, states := Held(), BehindRoot(boot.Now());
      CopyToCpu(cpu, t, c);
      OneMoreHandedOut(before, now, Held(), old(homes), 0, states, c);
    }

    lemma NextTask(t: Task)
      requires Spread() && |homes| < |queue| && t == queue[|homes|]
      ensures |homes| < |BehindRoot(boot.Now())| && t.state == BehindRoot(boot.Now())[|homes|]
    {
      BootHasTheQueue();
    }

    lemma NothingIsOut()
      requires Spread()
      ensures |cpus| > 0 && |homes| <= |queue|
      ensures HandedOut(Held(), Held(), homes, |homes|, BehindRoot(boot.Now()))
    {
      BootHasTheQueue();
      NothingHandedOut(Held(), homes, BehindRoot(boot.Now()));
    }

    /** The first round of assign_tasks_to_cpus: a block of `share` tasks for each CPU. */
    method ShareOut(share: nat)
      requires Spread() && homes == [] && |queue| > 0 && share > 0
      modifies this`homes, this`copies, cpus`tasks, queue`assignedTo
      ensures Spread() && |homes| == Cut(|queue|, share, |cpus|) && InBlocks(homes, share)
      ensures (forall x :: x in copies ==> x in old(copies) || fresh(x)) && boot.Now() == old(boot.Now())
      ensures HandedOut(old(Held()), Held(), homes, 0, BehindRoot(boot.Now()))
    {
      hide *;
      NothingIsOut();
      NoBlocks(share);
      ghost var n, q, before := |cpus|, |queue|, Held();
      var p, i := 0, 0;
      while i < |cpus|
        invariant Spread() && 0 <= i <= n && 0 <= p < q && InBlocks(homes, share)
        invariant if |homes| < q then |homes| == Start(i, share) == p else p == q - 1 && |homes| == Cut(q, share, n)
        invariant (forall x :: x in copies ==> x in old(copies) || fresh(x)) && boot.Now() == old(boot.Now())
        invariant HandedOut(before, Held(), homes, 0, BehindRoot(boot.Now()))
      {
        if p + 1 == |queue| {
          if |homes| < q {
            CutAt(q, share, n, i, 0);
          }
          break;
        }
        p := ShareBlock(share, p, i, before);
        i := i + 1;
      }
      if |homes| < q && i == n {
        CutFull(q, share, n);
      }
    }

    /** CPU `i`'s block. */
    method ShareBlock(share: nat, p: nat, i: nat, ghost before: Holding) returns (next: nat)
      requires Spread() && i < |cpus| && share > 0 && InBlocks(homes, share)
      requires |homes| == Start(i, share) == p && p + 1 < |queue|
      requires HandedOut(before, Held(), homes, 0, BehindRoot(boot.Now()))
      modifies this`homes, this`copies, cpus`tasks, queue`assignedTo
      ensures Spread() && InBlocks(homes, share) && next < |queue|
      ensures if |homes| < |queue| then |homes| == Start(i + 1, share) == next
              else next == |queue| - 1 && |homes| == Cut(|queue|, share, |cpus|)
      ensures (forall x :: x in copies ==> x in old(copies) || fresh(x)) && boot.Now() == old(boot.Now())
      ensures HandedOut(before, Held(), homes, 0, BehindRoot(boot.Now()))
    {
      hide *;
      next := p;
      var j := 0;
      while j < share
        invariant Spread() && 0 <= j <= share && 0 <= next < |queue| && InBlocks(homes, share)
        invariant |homes| == next == Start(i, share) + j && (j == 0 ==> next + 1 < |queue|)
        invariant (forall x :: x in copies ==> x in old(copies) || fresh(x)) && boot.Now() == old(boot.Now())
        invariant HandedOut(before, Held(), homes, 0, BehindRoot(boot.Now()))
      {
        BlockStep(homes, share, i, j);
        HandOut(cpus[i], queue[next], i, before);
        if next + 1 == |queue| {
          CutAt(|queue|, share, |cpus|, i, j);
          break;
        }
        next, j := next + 1, j + 1;
      }
      NextBlock(i, share);
    }

    lemma AssignedOrNot(k: nat)
      requires Spread() && k < |queue|
      ensures |cpus| > 0 && (queue[k].assignedTo < 0 <==> k >= |homes|)
    {
    }

    /** One task of the second round, unless it has a CPU already. */
    method PlaceLeftover(k: nat, i: nat, ghost a: nat, ghost before: Holding) returns (next: nat)
      requires Spread() && k < |queue| && a <= |homes| && |homes| == (if k < a then a else k)
      requires HandedOut(before, Held(), homes, 0, BehindRoot(boot.Now()))
      requires Due(homes, a, |cpus|, i)
      modifies this`homes, this`copies, cpus`tasks, queue`assignedTo
      ensures Spread() && |homes| == (if k + 1 < a then a else k + 1) && old(homes) <= homes
      ensures Due(homes, a, |cpus|, next)
      ensures (forall x :: x in copies ==> x in old(copies) || fresh(x)) && boot.Now() == old(boot.Now())
      ensures HandedOut(before, Held(), homes, 0, BehindRoot(boot.Now()))
    {
      hide *;
      AssignedOrNot(k);
      TurnStep(homes, a, |cpus|, i);
      next := i;
      if queue[k].assignedTo < 0 {
        HandOut(cpus[i], queue[k], i, before);
        next := i + 1;
        if next == |cpus| {
          next := 0;
        }
      }
    }

    /** Its second round: a walk over all tasks, the unassigned ones one by one. */
    method SpreadLeftovers(ghost before: Holding)
      requires Spread()
      requires HandedOut(before, Held(), homes, 0, BehindRoot(boot.Now()))
      modifies this`homes, this`copies, cpus`tasks, queue`assignedTo
      ensures Spread() && |homes| == |queue| && old(homes) <= homes
      ensures exists i :: Due(homes, |old(homes)|, |cpus|, i)
      ensures (forall x :: x in copies ==> x in old(copies) || fresh(x)) && boot.Now() == old(boot.Now())
      ensures HandedOut(before, Held(), homes, 0, BehindRoot(boot.Now()))
    {
      hide *;
      NothingIsOut();
      FirstTurn(homes, |cpus|);
      ghost var a := |homes|;
      var k, i := 0, 0;
      while k < |queue|
        invariant Spread() && 0 <= k <= |queue| && |homes| == (if k < a then a else k)
        invariant Due(homes, a, |cpus|, i) && old(homes) <= homes
        invariant (forall x :: x in copies ==> x in old(copies) || fresh(x)) && boot.Now() == old(boot.Now())
        invariant HandedOut(before, Held(), homes, 0, BehindRoot(boot.Now()))
      {
        i := PlaceLeftover(k, i, a, before);
        k := k + 1;
      }
    }

    /** Both rounds. */
    method BothRounds(share: nat)
      requires Spread() && homes == [] && |queue| > 0 && share > 0
      modifies this`homes, this`copies, cpus`tasks, queue`assignedTo
      ensures Spread() && |homes| == |queue| && |cpus| > 0 && Follows(homes, |queue|, share, |cpus|)
      ensures (forall x :: x in copies ==> x in old(copies) || fresh(x)) && boot.Now() == old(boot.Now())
      ensures HandedOut(old(Held()), Held(), homes, 0, BehindRoot(boot.Now()))
    {
      hide *;
      NothingIsOut();
      ShareOut(share);
      ghost var blocks := homes;
      SpreadLeftovers(old(Held()));
      PlanIsFollowed(homes, blocks, |queue|, share, |cpus|);
    }

    /** assign_tasks_to_cpus for all tasks. Its only caller has more than one task created. */
    method Distribute()
      requires Spread() && homes == [] && |queue| > 0 && pid > SINGLE_CORE_MAX && nextCpu == 0
      modifies this`homes, this`copies, this`first, this`share, cpus`tasks, queue`assignedTo
      ensures Spread() && Planned(homes, first, share, |cpus|, nextCpu)
      ensures |homes| == |queue| == first && share == ShareSize(pid, |cpus|) && IsShare(share, pid, |cpus|)
      ensures (forall x :: x in copies ==> x in old(copies) || fresh(x)) && boot.Now() == old(boot.Now())
      ensures HandedOut(old(Held()), Held(), homes, 0, BehindRoot(boot.Now()))
    {
      hide *;
      NothingIsOut();
      ghost var size := ShareSize(pid, |cpus|);
      first, share := |queue|, size;
      BothRounds(ShareSize(pid, |cpus|));
      PlanStarts(homes, share, |cpus|);
    }

    /** Linking a task behind the last one. */
    method Append(t: Task)
      requires Spread() && t !in queue && t !in copies && t != root && t.assignedTo == -1
      modifies this`queue, boot`tasks
      ensures Spread() && queue == old(queue) + [t] && boot.tasks == old(boot.tasks) + [t]
      ensures Held() == old(Held()) && Now() == old(Now()).(boot := Added(old(Now()).boot, t.state))
    {
      hide Apart, Assigned, Held, Processor.Now, Now;
      LinkToQueue(t);
    }

    method LinkToQueue(t: Task)
      requires Assigned() && Apart() && Pointing(boot)
      requires t !in queue && t !in copies && t != root && t.assignedTo == -1
      modifies this`queue, boot`tasks
      ensures Assigned() && Apart() && Pointing(boot) && queue == old(queue) + [t]
      ensures boot.tasks == old(boot.tasks) + [t]
      ensures Held() == old(Held()) && Now() == old(Now()).(boot := Added(old(Now()).boot, t.state))
    {
      boot.tasks := boot.tasks + [t];
      queue := queue + [t];
      assert boot.Now().states == old(boot.Now().states) + [t.state];
    }

    /** assign_tasks_to_cpus for the task just linked. */
    method AssignLast(t: Task)
      requires Spread() && Planned(homes, first, share, |cpus|, nextCpu)
      requires |queue| == |homes| + 1 && t == queue[|homes|]
      modifies this`nextCpu, this`homes, this`copies, cpus`tasks, t`assignedTo
      ensures Spread() && Planned(homes, first, share, |cpus|, nextCpu) && |homes| == |queue| && old(homes) <= homes
      ensures (forall x :: x in copies ==> x in old(copies) || fresh(x)) && boot.Now() == old(boot.Now())
      ensures Gains(old(Held()), Held(), old(nextCpu), t.state)
      ensures nextCpu == Turn(old(nextCpu) + 1, |cpus|)
    {
      hide *;
      PlanGoesOn(homes, first, share, |cpus|, nextCpu);
      CopyToCpu(cpus[nextCpu], t, nextCpu);
      nextCpu := nextCpu + 1;
      if nextCpu == |cpus| {
        nextCpu := 0;
      }
    }

    /** sched_queue. Before the distribution and on one CPU nothing is copied; the distribution
        happens once and covers every task; from then on each task goes out as it is queued, and no
        task's CPU changes. Lists only grow, at their ends and by new copies. */
    method Queue(t: Task)
      requires Valid() && t !in queue && t !in copies && t != root && t.assignedTo == -1
      modifies this`queue, this`distributed, this`nextCpu, this`homes, this`copies, this`first, this`share
      modifies boot`tasks, cpus`tasks, queue`assignedTo, t`assignedTo
      ensures Valid() && queue == old(queue) + [t] && old(homes) <= homes
      ensures boot.tasks == old(boot.tasks) + [t]
      ensures distributed == (old(distributed) || (|cpus| > 1 && pid > 4))
      ensures distributed && !old(distributed) ==> first == |queue| && IsShare(share, pid, |cpus|)
      ensures old(distributed) ==> first == old(first) && share == old(share)
      ensures (forall x :: x in copies ==> x in old(copies) || fresh(x)) && OnTop(old(Held()).lists, Held().lists)
      ensures Dispatches(old(Now()).(boot := Added(old(Now()).boot, t.state)), t.state, Now())
      ensures t.state == Suspended ==> Goes(old(Now()), Call.Queue, Now())
    {
      hide *;
      ghost var m := Now();
      FourTasksOnOneCore();
      NowIsOk();
      ValidParts();
      Append(t);
      if pid > SINGLE_CORE_MAX && !distributed && |cpus| > 1 {
        DispatchAll(t.state);
      } else if distributed && |cpus| > 1 {
        DispatchLast(t);
      } else {
        NoneDispatched(t.state);
      }
      if t.state == Suspended {
        QueueDispatches(m, Now());
      }
    }

    /** The lower half of sched_queue, with the distribution in it ... */
    method DispatchAll(ghost s: State)
      requires Spread() && homes == [] && nextCpu == 0 && |queue| > 0
      requires !distributed && |cpus| > 1 && SINGLE_CORE_MAX < pid < PID_RANGE
      modifies this`distributed, this`homes, this`copies, this`first, this`share, cpus`tasks, queue`assignedTo
      ensures Valid() && distributed && first == |queue| && IsShare(share, pid, |cpus|)
      ensures (forall x :: x in copies ==> x in old(copies) || fresh(x)) && OnTop(old(Held()).lists, Held().lists)
      ensures Dispatches(old(Now()), s, Now())
    {
      hide *;
      ghost var m, held := Now(), Held();
      DispatchIsOk();
      Distribute();
      distributed := true;
      AllDispatched(m, held, s);
    }

    /** ... and after it. */
    method DispatchLast(t: Task)
      requires Spread() && pid < PID_RANGE && |queue| > 0 && t == queue[|queue| - 1]
      requires distributed && |cpus| > 1 && |homes| + 1 == |queue| && nextCpu < |cpus|
      requires Planned(homes, first, share, |cpus|, nextCpu)
      modifies this`nextCpu, this`homes, this`copies, cpus`tasks, t`assignedTo
      ensures Valid() && old(homes) <= homes
      ensures (forall x :: x in copies ==> x in old(copies) || fresh(x)) && OnTop(old(Held()).lists, Held().lists)
      ensures Dispatches(old(Now()), t.state, Now())
    {
      hide *;
      ghost var m, held := Now(), Held();
      DispatchIsOk();
      AssignLast(t);
      LastDispatched(m, held, t.state);
    }

    lemma AllDispatched(m: Machine, held: Holding, s: State)
      requires m.Ok() && |m.boot.states| > 1 && m == Machine(pid, boot.Now(), held.cores, false, nextCpu)
      requires distributed && |cpus| > 1 && pid > SINGLE_CORE_MAX && |held.cores| == |cpus|
      requires Spread() && Planned(homes, first, share, |cpus|, nextCpu)
      requires |homes| == |queue| == first && share == ShareSize(pid, |cpus|)
      requires HandedOut(held, Held(), homes, 0, BehindRoot(boot.Now()))
      ensures Valid() && Dispatches(m, s, Now()) && OnTop(held.lists, Held().lists)
    {
      BootHasTheQueue();
      hide Follows, ShareSize, Turn, Filled, Copies, Held;
      FirstDispatch(m, Now(), homes, s);
    }

    lemma LastDispatched(m: Machine, held: Holding, s: State)
      requires m.Ok() && |m.boot.states| > 1 && distributed && |cpus| > 1 && |held.cores| == |cpus|
      requires m == Machine(pid, boot.Now(), held.cores, true, m.next)
      requires Spread() && Planned(homes, first, share, |cpus|, nextCpu) && |homes| == |queue| && pid < PID_RANGE
      requires Gains(held, Held(), m.next, s) && nextCpu == Turn(m.next + 1, |cpus|)
      ensures Valid() && Dispatches(m, s, Now()) && OnTop(held.lists, Held().lists)
    {
      hide Follows, Turn, Copies, Held;
    }

    lemma NoneDispatched(s: State)
      requires Spread() && homes == [] && nextCpu == 0 && |queue| > 0 && pid < PID_RANGE
      requires !distributed && (|cpus| == 1 || pid <= SINGLE_CORE_MAX)
      ensures Valid() && Dispatches(Now(), s, Now()) && OnTop(Held().lists, Held().lists)
    {
      DispatchIsOk();
    }

    lemma ValidParts()
      requires Valid()
      ensures Spread() && pid < PID_RANGE && nextCpu < |cpus| && boot !in cpus
      ensures if distributed then |cpus| > 1 && |homes| == |queue| && Planned(homes, first, share, |cpus|, nextCpu)
              else homes == [] && nextCpu == 0
    {
    }

    lemma PartsAreValid()
      requires Spread() && pid < PID_RANGE && nextCpu < |cpus|
      requires if distributed then |cpus| > 1 && |homes| == |queue| && Planned(homes, first, share, |cpus|, nextCpu)
               else homes == [] && nextCpu == 0
      ensures Valid()
    {
    }

    lemma NowIsOk()
      requires Valid()
      ensures Now().Ok() && Now() == Machine(pid, boot.Now(), Held().cores, distributed, nextCpu)
    {
    }

    lemma DispatchIsOk()
      requires Spread() && pid < PID_RANGE && |queue| > 0 && nextCpu < |cpus|
      ensures Now().Ok() && |Now().boot.states| > 1 && |Held().cores| == |cpus|
      ensures Now() == Machine(pid, boot.Now(), Held().cores, distributed, nextCpu)
      ensures Now().Distributes() <==> !distributed && |cpus| > 1 && pid > SINGLE_CORE_MAX
    {
    }

    lemma BootHasTheQueue()
      requires Apart()
      ensures BehindRoot(boot.Now()) == States(queue)
    {
    }

    /** sched_create_task: the process number is 16 bits wide. */
    method CreateTask(name: string, context: nat, children: nat) returns (t: Task)
      requires Valid()
      modifies this`pid
      ensures Valid() && fresh(t) && t !in copies
      ensures t.info == Info(name, pid, context, children) && t.state == Suspended && t.assignedTo == -1
      ensures Goes(old(Now()), Create, Now()) && pid == (old(pid) + 1) % 0x1_0000
    {
      hide Distinct, NothingShared, Share;
      pid := (pid + 1) % PID_RANGE;
      t := new Task(Info(name, pid, context, children), Suspended, -1);
    }

    /** The timer on CPU `c`: switch_task there. It touches no other CPU and no task's place. */
    method TimerOn(c: nat, cpu: Processor, interrupted: bool) returns (loads: bool)
      requires Valid() && c < |cpus| && cpu == cpus[c]
      modifies cpu`running, cpu.tasks`state
      ensures Valid() && Goes(old(Now()), Call.TimerOn(c), Now())
    {
      hide *;
      NowIsOk();
      ValidParts();
      CpuIsOk(c);
      ghost var m, cores := Now(), Held().cores;
      loads := SwitchOn(c, cpu, interrupted);
      PartsAreValid();
      CpuTicks(m, cores, c);
    }

    method SwitchOn(c: nat, cpu: Processor, interrupted: bool) returns (loads: bool)
      requires Spread() && c < |cpus| && cpu == cpus[c] && Distinct(cpu.tasks) && cpu.Now().Ok()
      modifies cpu`running, cpu.tasks`state
      ensures Spread() && boot.Now() == old(boot.Now()) && Ticked(old(Held().cores), Held().cores, c)
    {
      hide Tick, Spread, Assigned, Copies, Apart;
      SpreadParts();
      BootIsAway(c);
      OthersAreAway(c);
      loads := SwitchKeepsSpread(c, cpu, interrupted);
      assert Held().cores == old(Held()).cores[c := Tick(old(Held()).cores[c])];
    }

    method SwitchKeepsSpread(c: nat, cpu: Processor, interrupted: bool) returns (loads: bool)
      requires Spread() && c < |cpus| && cpu == cpus[c] && Distinct(cpu.tasks) && cpu.Now().Ok()
      modifies cpu`running, cpu.tasks`state
      ensures Spread() && cpu.Now() == Tick(old(cpu.Now()))
    {
      hide Tick, Distinct, NothingShared, Share, Turn;
      loads := cpu.SwitchTask(interrupted);
      assert Assigned() && Apart();
    }

    lemma SpreadParts()
      requires Spread()
      ensures Apart() && Assigned() && Within() && Distinct(cpus)
    {
    }

    lemma OthersAreAway(c: nat)
      requires Apart() && c < |cpus|
      ensures forall d, x {:trigger cpus[d].tasks[x]} ::
                0 <= d < |cpus| && d != c && 0 <= x < |cpus[d].tasks| ==> cpus[d].tasks[x] !in cpus[c].tasks
    {
    }

    lemma BootIsAway(c: nat)
      requires Apart() && c < |cpus|
      ensures forall k :: 0 <= k < |boot.tasks| ==> boot.tasks[k] !in cpus[c].tasks
    {
    }

    lemma CpuTicks(m: Machine, cores: seq<Core>, c: nat)
      requires m.Ok() && m == Machine(pid, boot.Now(), cores, distributed, nextCpu) && Ticked(cores, Held().cores, c)
      ensures Goes(m, Call.TimerOn(c), Now())
    {
      hide Tick, Held;
    }

    /** The timer on the boot processor, which runs the queued tasks themselves. */
    method TimerOnBoot(interrupted: bool) returns (loads: bool)
      requires Valid()
      modifies boot`running, boot.tasks`state
      ensures Valid() && Goes(old(Now()), BootTimer, Now())
    {
      hide Distinct, NothingShared, Share, Planned, Tick;
      BootIsOk();
      NowIsOk();
      loads := boot.SwitchTask(interrupted);
    }

    lemma ListsAreCopies(c: nat)
      requires Valid() && c < |cpus|
      ensures forall x :: 0 <= x < |cpus[c].tasks| ==> cpus[c].tasks[x] in copies
    {
    }

    lemma CpuIsOk(c: nat)
      requires Valid() && c < |cpus|
      ensures Distinct(cpus[c].tasks) && cpus[c].Now().Ok()
    {
    }

    lemma BootIsOk()
      requires Valid()
      ensures Distinct(boot.tasks) && boot.Now().Ok()
    {
    }

    /** The queue position that entry `x` of CPU `c`'s list is a copy of. */
    ghost function Origin(c: nat, x: nat): (k: nat)
      requires Valid() && c < |cpus| && x < |cpus[c].tasks|
      reads this, boot, cpus, queue, copies
      ensures k < |queue| && cpus[c].tasks[x].info == queue[k].info
    {
      assert Copies(cpus[c].tasks, queue, homes, c, cpus[c].cpuId);
      Share(homes, c)[x]
    }

    /** Once distributed, each queue position has a copy, on the CPU that the task's `assignedTo`
        names ... */
    lemma HasACopy(k: nat)
      requires Valid() && distributed && k < |queue|
      ensures exists c, x :: 0 <= c < |cpus| && 0 <= x < |cpus[c].tasks| && Origin(c, x) == k
                && cpus[c].cpuId == queue[k].assignedTo
    {
      hide Follows, Distinct;
      var c := homes[k];
      SharesPartition(homes, c);
      assert Copies(cpus[c].tasks, queue, homes, c, cpus[c].cpuId);
      assert k in Share(homes, c);
      var x :| 0 <= x < |Share(homes, c)| && Share(homes, c)[x] == k;
      assert Origin(c, x) == k;
    }

    /** ... and no second one anywhere. */
    lemma HasNoOtherCopy(c: nat, x: nat, d: nat, y: nat)
      requires Valid() && distributed && c < |cpus| && x < |cpus[c].tasks| && d < |cpus| && y < |cpus[d].tasks|
      requires Origin(c, x) == Origin(d, y)
      ensures c == d && x == y
    {
      hide Follows, Distinct;
      SharesPartition(homes, c);
      assert Copies(cpus[c].tasks, queue, homes, c, cpus[c].cpuId);
      assert Copies(cpus[d].tasks, queue, homes, d, cpus[d].cpuId);
      assert homes[Share(homes, c)[x]] == c && homes[Share(homes, d)[y]] == d;
    }

    /** A CPU's list is a subsequence of the queue, as long as the plan says. */
    lemma ListFollowsQueue(c: nat)
      requires Valid() && distributed && c < |cpus|
      ensures |cpus[c].tasks| == Load(|queue|, c, first, share, |cpus|)
      ensures exists at: seq<nat> :: |at| == |cpus[c].tasks| && (forall x, y :: 0 <= x < y < |at| ==> at[x] < at[y])
                && forall x :: 0 <= x < |at| ==> at[x] < |queue| && cpus[c].tasks[x].info == queue[at[x]].info
    {
      assert Copies(cpus[c].tasks, queue, homes, c, cpus[c].cpuId);
      hide Follows, Distinct, Load;
      LoadIsExact(homes, c, first, share, |cpus|);
      SharesPartition(homes, c);
      var at := Share(homes, c);
    }
  }
}
