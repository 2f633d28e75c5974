/** Bringing up the application processors: the boot processor fills a mailbox and starts them one
    at a time, each reads the mailbox and takes a processor slot. Every step is one write or read
    of shared memory, and the cores' steps interleave in any order. */
module Smp {
  import opened Arith

  /** What the boot processor runs with: `boot[i]` says whether core `i` of the list is itself,
      `stacks[i]` is the stack allocated for core `i`. The stacks' pool issues different pages for
      its first twelve (SlabList.FirstIssuesDiffer); the processor array has room for eight. */
  datatype Setup = Setup(boot: seq<bool>, stacks: seq<nat>, pageTable: nat, entry: nat)
  {
    ghost predicate Ok() {
      |stacks| == |boot| && forall i, j :: 0 <= i < j < |stacks| ==> stacks[i] != stacks[j]
    }

    /** The cores started among the first `k`. */
    ghost function Started(k: nat): (n: nat)
      requires k <= |boot|
      ensures n <= k
    {
      if k == 0 then 0 else Started(k - 1) + if boot[k - 1] then 0 else 1
    }
  }

  /** Where the boot processor is in its turn for one core. */
  datatype Stage = Clear | PutTable | PutStack | PutEntry | Count | Send | Wait

  /** Where an application processor is in its startup. */
  datatype Phase = Off | GetTable | GetStack | GetEntry | GetSlot | Raise | Up

  datatype Ap = Ap(phase: Phase, pageTable: nat, stack: nat, entry: nat, slot: nat)

  datatype Mailbox = Mailbox(pageTable: nat, stack: nat, entry: nat)

  /** `core` and `stage` are the boot processor's; the mailbox, `currentAp` and `apIsOk` are shared. */
  datatype Machine = Machine(core: nat, stage: Stage, mailbox: Mailbox, currentAp: nat, apIsOk: bool, aps: seq<Ap>)

  ghost predicate Init(c: Setup, s: Machine) {
    && s.core == 0 && s.stage == Clear && s.currentAp == 0 && !s.apIsOk && |s.aps| == |c.boot|
    && forall i :: 0 <= i < |s.aps| ==> s.aps[i].phase == Off
  }

  /** A step of smp_init's loop, smp_signal_ap included; waiting for the AP is no step. */
  ghost function BootStep(c: Setup, s: Machine): Option<Machine>
    requires c.Ok() && |s.aps| == |c.boot|
  {
    if s.core >= |c.boot| then None
    else if c.boot[s.core] then Some(s.(core := s.core + 1))
    else match s.stage
      case Clear => Some(s.(apIsOk := false, stage := PutTable))
      case PutTable => Some(s.(mailbox := s.mailbox.(pageTable := c.pageTable), stage := PutStack))
      case PutStack => Some(s.(mailbox := s.mailbox.(stack := c.stacks[s.core]), stage := PutEntry))
      case PutEntry => Some(s.(mailbox := s.mailbox.(entry := c.entry), stage := Count))
      case Count => Some(s.(currentAp := s.currentAp + 1, stage := Send))
      case Send => Some(s.(aps := s.aps[s.core := s.aps[s.core].(phase := GetTable)], stage := Wait))
      case Wait => if s.apIsOk then Some(s.(core := s.core + 1, stage := Clear)) else None
  }

  /** A step of the bootstrap code and ap_startup on core `i`. The page table's address is read in
      32-bit mode, so only its low half. */
  ghost function ApStep(s: Machine, i: nat): Option<Machine>
    requires i < |s.aps|
  {
    var a := s.aps[i];
    match a.phase
    case Off => None
    case GetTable => Some(s.(aps := s.aps[i := a.(pageTable := s.mailbox.pageTable % W32, phase := GetStack)]))
    case GetStack => Some(s.(aps := s.aps[i := a.(stack := s.mailbox.stack, phase := GetEntry)]))
    case GetEntry => Some(s.(aps := s.aps[i := a.(entry := s.mailbox.entry, phase := GetSlot)]))
    case GetSlot => Some(s.(aps := s.aps[i := a.(slot := s.currentAp, phase := Raise)]))
    case Raise => Some(s.(aps := s.aps[i := a.(phase := Up)], apIsOk := true))
    case Up => None
  }

  ghost predicate Next(c: Setup, s: Machine, t: Machine)
    requires c.Ok() && |s.aps| == |c.boot|
  {
    BootStep(c, s) == Some(t) || exists i: nat :: i < |s.aps| && ApStep(s, i) == Some(t)
  }

  // ----- the invariant -----

  /** What an AP has read so far is what was meant for it. */
  ghost predicate ReadRight(c: Setup, a: Ap, i: nat)
    requires c.Ok() && i < |c.boot|
  {
    && (a.phase in {GetStack, GetEntry, GetSlot, Raise, Up} ==> a.pageTable == c.pageTable % W32)
    && (a.phase in {GetEntry, GetSlot, Raise, Up} ==> a.stack == c.stacks[i])
    && (a.phase in {GetSlot, Raise, Up} ==> a.entry == c.entry)
    && (a.phase in {Raise, Up} ==> a.slot == c.Started(i + 1))
  }

  /** The mailbox holds what the boot processor has written for its current core. */
  ghost predicate Filled(c: Setup, s: Machine)
    requires c.Ok() && s.core < |c.boot| == |s.aps|
  {
    && (s.stage in {PutStack, PutEntry, Count, Send, Wait} ==> s.mailbox.pageTable == c.pageTable)
    && (s.stage in {PutEntry, Count, Send, Wait} ==> s.mailbox.stack == c.stacks[s.core])
    && (s.stage in {Count, Send, Wait} ==> s.mailbox.entry == c.entry)
    && (s.stage !in {Clear, Wait} ==> !s.apIsOk)
    && (s.stage == Wait ==> (s.apIsOk <==> s.aps[s.core].phase == Up))
  }

  ghost predicate Inv(c: Setup, s: Machine) {
    && c.Ok() && |s.aps| == |c.boot| && s.core <= |c.boot|
    && (s.core == |c.boot| || c.boot[s.core] ==> s.stage == Clear)
    && (s.core < |c.boot| ==> Filled(c, s))
    && s.currentAp == c.Started(s.core) + (if s.stage in {Send, Wait} then 1 else 0)
    && forall i :: 0 <= i < |s.aps| ==> ApRight(c, s, i)
  }

  /** Cores before the current one are up, the current one is while the boot processor waits, and
      the others are off. */
  ghost predicate ApRight(c: Setup, s: Machine, i: nat)
    requires c.Ok() && |s.aps| == |c.boot| && i < |s.aps|
  {
    && ReadRight(c, s.aps[i], i)
    && if c.boot[i] || i > s.core || (i == s.core && s.stage != Wait) then s.aps[i].phase == Off
       else if i < s.core then s.aps[i].phase == Up
       else s.aps[i].phase != Off
  }

  lemma InitHolds(c: Setup, s: Machine)
    requires c.Ok() && Init(c, s)
    ensures Inv(c, s)
  {
  }

  lemma BootStepKeeps(c: Setup, s: Machine, t: Machine)
    requires Inv(c, s) && BootStep(c, s) == Some(t)
    ensures Inv(c, t)
  {
    forall i | 0 <= i < |t.aps|
      ensures ApRight(c, t, i)
    {
      assert ApRight(c, s, i);
    }
  }

  lemma ApStepKeeps(c: Setup, s: Machine, t: Machine, i: nat)
    requires Inv(c, s) && i < |s.aps| && ApStep(s, i) == Some(t)
    ensures Inv(c, t)
  {
    assert ApRight(c, s, i);
    assert i == s.core && s.stage == Wait;
    forall j | 0 <= j < |t.aps|
      ensures ApRight(c, t, j)
    {
      assert ApRight(c, s, j);
    }
  }

  // ----- runs -----

  ghost predicate IsRun(c: Setup, run: seq<Machine>) {
    && c.Ok() && run != [] && Init(c, run[0])
    && (forall k :: 0 <= k < |run| ==> |run[k].aps| == |c.boot|)
    && forall k :: 0 <= k < |run| - 1 ==> Next(c, run[k], run[k + 1])
  }

  lemma {:induction false} RunsKeepInv(c: Setup, run: seq<Machine>, k: nat)
    requires IsRun(c, run) && k < |run|
    ensures Inv(c, run[k])
  {
    if k == 0 {
      InitHolds(c, run[0]);
    } else {
      RunsKeepInv(c, run, k - 1);
      var s, t := run[k - 1], run[k];
      assert Next(c, run[k - 1], run[k - 1 + 1]);
      if BootStep(c, s) == Some(t) {
        BootStepKeeps(c, s, t);
      } else {
        var i: nat :| i < |s.aps| && ApStep(s, i) == Some(t);
        ApStepKeeps(c, s, t, i);
      }
    }
  }

  /** While a started AP has not finished reading, the boot processor does nothing at all; so it
      rewrites neither the mailbox nor `currentAp`. No two APs are reading at once. */
  lemma MailboxIsQuiet(c: Setup, run: seq<Machine>, k: nat, i: nat)
    requires IsRun(c, run) && k < |run| && i < |run[k].aps| && run[k].aps[i].phase !in {Off, Up}
    ensures BootStep(c, run[k]) == None
    ensures forall j :: 0 <= j < |run[k].aps| && j != i ==> run[k].aps[j].phase in {Off, Up}
  {
    RunsKeepInv(c, run, k);
    var s := run[k];
    assert ApRight(c, s, i);
    forall j | 0 <= j < |s.aps| && j != i
      ensures s.aps[j].phase in {Off, Up}
    {
      assert ApRight(c, s, j);
    }
  }

  lemma {:induction false} StartedGrows(c: Setup, i: nat, j: nat)
    requires i <= j <= |c.boot|
    ensures c.Started(i) <= c.Started(j) <= c.Started(i) + (j - i)
    ensures (forall k :: i <= k < j ==> !c.boot[k]) ==> c.Started(j) == c.Started(i) + (j - i)
    ensures (exists k :: i <= k < j && c.boot[k]) ==> c.Started(j) < c.Started(i) + (j - i)
    ensures (exists k :: i <= k < j && !c.boot[k]) ==> c.Started(j) > c.Started(i)
    decreases j
  {
    if i < j {
      StartedGrows(c, i, j - 1);
    }
  }

  /** Processors that are up have stacks and slots of their own. */
  lemma ApsAreApart(c: Setup, run: seq<Machine>, k: nat, i: nat, j: nat)
    requires IsRun(c, run) && k < |run| && i < j < |run[k].aps|
    requires run[k].aps[i].phase == Up && run[k].aps[j].phase == Up
    ensures run[k].aps[i].slot != run[k].aps[j].slot && run[k].aps[i].stack != run[k].aps[j].stack
  {
    RunsKeepInv(c, run, k);
    assert ApRight(c, run[k], i) && ApRight(c, run[k], j);
    StartedGrows(c, i + 1, j + 1);
  }

  /** With one boot processor in the list, an AP takes its own slot exactly when it comes after it;
      an AP before it takes the next one's. Its stack and entry point are what was meant for it, and
      its page table is the boot processor's exactly when that lies below 4 GiB. */
  lemma OwnSlot(c: Setup, run: seq<Machine>, k: nat, i: nat, b: nat)
    requires IsRun(c, run) && k < |run| && i < |run[k].aps| && run[k].aps[i].phase == Up
    requires b < |c.boot| && forall j :: 0 <= j < |c.boot| ==> (c.boot[j] <==> j == b)
    ensures run[k].aps[i].slot == if b < i then i else i + 1
    ensures run[k].aps[i].slot < |c.boot|
    ensures run[k].aps[i].entry == c.entry && run[k].aps[i].stack == c.stacks[i]
    ensures run[k].aps[i].pageTable == c.pageTable <==> c.pageTable < W32
  {
    RunsKeepInv(c, run, k);
    assert ApRight(c, run[k], i);
    if b < i {
      StartedGrows(c, 0, b);
      StartedGrows(c, b + 1, i + 1);
    } else {
      StartedGrows(c, 0, i + 1);
    }
  }

  // ----- progress -----

  ghost function StepsOfStage(stage: Stage): nat {
    match stage
    case Clear => 7 case PutTable => 6 case PutStack => 5 case PutEntry => 4
    case Count => 3 case Send => 2 case Wait => 1
  }

  ghost function StepsOfPhase(phase: Phase): nat {
    match phase
    case Off => 6 case GetTable => 5 case GetStack => 4 case GetEntry => 3
    case GetSlot => 2 case Raise => 1 case Up => 0
  }

  ghost function PhaseSteps(aps: seq<Ap>): nat {
    if aps == [] then 0 else PhaseSteps(aps[..|aps| - 1]) + StepsOfPhase(aps[|aps| - 1].phase)
  }

  /** An upper bound on the steps left. */
  ghost function Left(c: Setup, s: Machine): int {
    8 * (|c.boot| - s.core) + StepsOfStage(s.stage) + PhaseSteps(s.aps)
  }

  lemma {:induction false} PhaseStepsChange(aps: seq<Ap>, i: nat, a: Ap)
    requires i < |aps|
    ensures PhaseSteps(aps[i := a]) == PhaseSteps(aps) - StepsOfPhase(aps[i].phase) + StepsOfPhase(a.phase)
  {
    var last := |aps| - 1;
    if i < last {
      PhaseStepsChange(aps[..last], i, a);
      assert aps[i := a][..last] == aps[..last][i := a];
    } else {
      assert aps[i := a][..last] == aps[..last];
    }
  }

  /** Nobody gets stuck: every step is one step nearer to the end, and while a core is still to be
      started someone can take a step. */
  lemma StepsComeNearer(c: Setup, s: Machine, t: Machine)
    requires Inv(c, s) && Next(c, s, t)
    ensures 0 <= Left(c, t) < Left(c, s)
  {
    if BootStep(c, s) == Some(t) {
      BootComesNearer(c, s, t);
    } else {
      var i: nat :| i < |s.aps| && ApStep(s, i) == Some(t);
      ApComesNearer(c, s, t, i);
    }
  }

  lemma BootComesNearer(c: Setup, s: Machine, t: Machine)
    requires Inv(c, s) && BootStep(c, s) == Some(t)
    ensures 0 <= Left(c, t) < Left(c, s)
  {
    assert ApRight(c, s, s.core);
    if s.stage == Send {
      PhaseStepsChange(s.aps, s.core, s.aps[s.core].(phase := GetTable));
    }
    hide PhaseSteps;
  }

  lemma ApComesNearer(c: Setup, s: Machine, t: Machine, i: nat)
    requires Inv(c, s) && i < |s.aps| && ApStep(s, i) == Some(t)
    ensures 0 <= Left(c, t) < Left(c, s)
  {
    assert t.core == s.core <= |c.boot| && t.stage == s.stage;
    hide PhaseSteps, Inv;
    PhaseStepsChange(s.aps, i, t.aps[i]);
  }

  lemma SomeoneCanStep(c: Setup, s: Machine)
    requires Inv(c, s) && s.core < |c.boot|
    ensures exists t :: Next(c, s, t)
  {
    assert ApRight(c, s, s.core);
    var t := if s.stage == Wait && !s.apIsOk then ApStep(s, s.core) else BootStep(c, s);
    assert Next(c, s, t.value);
  }

  /** At the end of the loop every other core is up. */
  lemma AllAreUp(c: Setup, run: seq<Machine>, k: nat, i: nat)
    requires IsRun(c, run) && k < |run| && run[k].core == |c.boot| && i < |c.boot|
    ensures run[k].aps[i].phase == if c.boot[i] then Off else Up
  {
    RunsKeepInv(c, run, k);
    assert ApRight(c, run[k], i);
  }
}
