/** One CPU's run list: the timer moves to the next task and hands it the CPU. */
module RunQueue {
  import opened Arith
  import opened Balance

  datatype State = Dead | Suspended | Asleep | Running

  /** The states along the list, and where `running_task` points. */
  datatype Core = Core(states: seq<State>, running: Option<nat>)
  {
    ghost predicate Ok() {
      running.Some? ==> running.value < |states|
    }

    /** The task being left; an unset one counts as the first. */
    function Previous(): nat {
      if running.Some? then running.value else 0
    }

    function Next(): (k: nat)
      requires Ok() && states != []
      ensures k < |states| && k == Turn(Previous() + 1, |states|)
    {
      Wrap(Previous(), |states|);
      if Previous() + 1 < |states| then Previous() + 1 else 0
    }

    /** Exactly the task `running_task` points to is running, and all others wait. */
    ghost predicate Clean() {
      && running.Some? && running.value < |states|
      && forall k :: 0 <= k < |states| ==> states[k] == if k == running.value then Running else Suspended
    }
  }

  lemma Wrap(k: nat, n: nat)
    requires k < n
    ensures Turn(k + 1, n) == if k + 1 < n then k + 1 else 0
  {
    StepTurn(k, n);
  }

  /** switch_task: `running_task` moves on whatever happens, but only a suspended task is switched
      to. */
  function Tick(c: Core): (d: Core)
    requires c.Ok()
    ensures d.Ok() && |d.states| == |c.states|
  {
    if c.states == [] then c
    else
      var next := c.Next();
      var states := if c.states[next] == Suspended then c.states[c.Previous() := Suspended][next := Running]
            else c.states;
      Core(states, Some(next))
  }

  /** A CPU's first tick leaves it clean exactly when nothing behind the second task is marked
      running, and the second only if the first is not; a single task must be suspended or running. */
  lemma FirstTick(c: Core)
    requires c.states != [] && (c.running == None || c.running == Some(0))
    ensures |c.states| == 1 ==> (Tick(c).Clean() <==> c.states[0] == Suspended || c.states[0] == Running)
    ensures |c.states| >= 2 ==>
              (Tick(c).Clean() <==>
                && (forall k :: 2 <= k < |c.states| ==> c.states[k] == Suspended)
                && (c.states[1] == Suspended || (c.states[1] == Running && c.states[0] == Suspended)))
  {
    var d := Tick(c);
    assert c.Next() == if |c.states| == 1 then 0 else 1;
    if d.Clean() {
      forall k | 2 <= k < |c.states|
        ensures c.states[k] == Suspended
      {
        assert d.states[k] == c.states[k];
      }
    }
  }

  /** A copy taken of a running task: two tasks of the CPU's list are marked running after its
      first tick, and the CPU passes over the copy without switching to it. */
  lemma RunningCopyIsSkipped(c: Core)
    requires c == Core([Suspended, Suspended, Running], None)
    ensures Tick(c).states == [Suspended, Running, Running]
    ensures Tick(Tick(c)) == Core([Suspended, Running, Running], Some(2)) && !Tick(Tick(c)).Clean()
  {
    var d := Tick(c);
    assert c.Next() == 1 && d.Next() == 2;
    assert Tick(d).states[1] == Running;
  }

  /** What happens to a CPU's list: ticks, and new tasks queued behind the last one. */
  datatype Event = Timer | Queued

  function Step(c: Core, e: Event): (d: Core)
    requires c.Ok()
    ensures d.Ok()
  {
    match e
    case Timer => Tick(c)
    case Queued => Core(c.states + [Suspended], c.running)
  }

  function Run(c: Core, events: seq<Event>): (d: Core)
    requires c.Ok()
    ensures d.Ok()
    decreases |events|
  {
    if events == [] then c else Run(Step(c, events[0]), events[1..])
  }

  /** In every run a clean CPU stays clean. */
  lemma {:induction false} RunsStayClean(c: Core, events: seq<Event>)
    requires c.Ok() && c.Clean()
    ensures Run(c, events).Clean()
    decreases |events|
  {
    if events != [] {
      RunsStayClean(Step(c, events[0]), events[1..]);
    }
  }

  lemma {:induction false} RunAppends(c: Core, before: seq<Event>, after: seq<Event>)
    requires c.Ok()
    ensures Run(c, before + after) == Run(Run(c, before), after)
    decreases |before|
  {
    if before == [] {
      assert before + after == after;
    } else {
      assert (before + after)[1..] == before[1..] + after;
      RunAppends(Step(c, before[0]), before[1..], after);
    }
  }

  /** Two tasks are marked running. */
  ghost predicate Crowded(c: Core) {
    exists i, j :: 0 <= i < j < |c.states| && c.states[i] == Running && c.states[j] == Running
  }

  lemma TickStaysCrowded(c: Core)
    requires c.Ok() && Crowded(c)
    ensures Crowded(Tick(c))
  {
    var i, j :| 0 <= i < j < |c.states| && c.states[i] == Running && c.states[j] == Running;
    var next, d := c.Next(), Tick(c);
    if c.states[next] == Suspended {
      var k := if c.Previous() == i then j else i;
      assert d.states[k] == Running && d.states[next] == Running && k != next;
    }
  }

  /** A task marked running once too often stays, in every run. */
  lemma {:induction false} RunsStayCrowded(c: Core, events: seq<Event>)
    requires c.Ok() && Crowded(c)
    ensures Crowded(Run(c, events)) && !Run(c, events).Clean()
    decreases |events|
  {
    if events != [] {
      match events[0] {
        case Timer => TickStaysCrowded(c);
        case Queued =>
          var i, j :| 0 <= i < j < |c.states| && c.states[i] == Running && c.states[j] == Running;
          assert Step(c, Queued).states[i] == Running && Step(c, Queued).states[j] == Running;
      }
      RunsStayCrowded(Step(c, events[0]), events[1..]);
    }
  }

  // ----- whole runs from the real initial states -----

  ghost predicate AllQueued(events: seq<Event>) {
    forall k :: 0 <= k < |events| ==> events[k] == Queued
  }

  lemma {:induction false} QueueingOnly(c: Core, events: seq<Event>)
    requires c.Ok() && AllQueued(events)
    ensures Run(c, events) == Core(c.states + seq(|events|, _ => Suspended), c.running)
    decreases |events|
  {
    if events == [] {
      assert c.states + seq(0, _ => Suspended) == c.states;
    } else {
      QueueingOnly(Step(c, events[0]), events[1..]);
      assert seq(|events|, _ => Suspended) == [Suspended] + seq(|events| - 1, _ => Suspended);
    }
  }

  /** The tasks a CPU is given leave at most the first two of its list in question, and of these
      at most one running. */
  ghost predicate StartsClean(states: seq<State>) {
    && (forall k :: 2 <= k < |states| ==> states[k] == Suspended)
    && (|states| >= 2 ==> states[0] == Suspended || states[1] == Suspended)
  }

  /** A CPU that is given copies of suspended and running tasks, and then more tasks as they are
      queued: from its first tick with a task on it is clean in every state of every run, or in
      none, as the copies decide. Without a task a tick does nothing. */
  lemma RunsOfAGivenList(states: seq<State>, queued: seq<Event>, rest: seq<Event>)
    requires forall k :: 0 <= k < |states| ==> states[k] == Suspended || states[k] == Running
    requires AllQueued(queued) && |states| + |queued| > 0
    ensures Run(Core(states, None), queued + [Timer] + rest).Clean() <==> StartsClean(states)
  {
    var c := Core(states, None);
    QueueingOnly(c, queued);
    var all := states + seq(|queued|, _ => Suspended);
    var d := Tick(Core(all, None));
    RunAppends(c, queued + [Timer], rest);
    RunAppends(c, queued, [Timer]);
    assert Run(c, queued + [Timer]) == d;
    GivenListDecides(states, |queued|);
    if StartsClean(states) {
      RunsStayClean(d, rest);
    } else {
      RunsStayCrowded(d, rest);
    }
  }

  lemma GivenListDecides(states: seq<State>, n: nat)
    requires |states| + n > 0 && forall k :: 0 <= k < |states| ==> states[k] == Suspended || states[k] == Running
    ensures var d := Tick(Core(states + seq(n, _ => Suspended), None));
            if StartsClean(states) then d.Clean() else Crowded(d)
  {
    var all := states + seq(n, _ => Suspended);
    var c := Core(all, None);
    FirstTick(c);
    assert forall k :: |states| <= k < |all| ==> all[k] == Suspended;
    assert forall k :: 0 <= k < |states| ==> all[k] == states[k];
    if !StartsClean(states) {
      var d := Tick(c);
      assert |states| >= 2 && d.states[1] == Running;
      if k :| 2 <= k < |states| && states[k] != Suspended {
        assert d.states[k] == Running;
      } else {
        assert d.states[0] == Running;
      }
    }
  }

  /** The boot processor's list: from the sleeping root task alone, a run leaves it clean exactly
      when a timer tick has come after a task was queued. */
  lemma RunsOfTheBootList(events: seq<Event>)
    ensures var d := Run(Core([Asleep], Some(0)), events);
            d.Clean() <==> exists i, j :: 0 <= i < j < |events| && events[i] == Queued && events[j] == Timer
  {
    BootListFrom([Asleep], events);
  }

  /** The same from a list with the root task and tasks queued but not ticked. */
  lemma {:induction false} BootListFrom(states: seq<State>, events: seq<Event>)
    requires states != [] && states[0] == Asleep && forall k :: 1 <= k < |states| ==> states[k] == Suspended
    ensures Run(Core(states, Some(0)), events).Clean() <==>
            exists j :: 0 <= j < |events| && events[j] == Timer &&
                        (|states| > 1 || exists i :: 0 <= i < j && events[i] == Queued)
    decreases |events|
  {
    var c := Core(states, Some(0));
    if events != [] {
      var rest := events[1..];
      match events[0]
      case Timer =>
        FirstTick(c);
        if |states| > 1 {
          RunsStayClean(Tick(c), rest);
          assert events[0] == Timer;
        } else {
          assert c.Next() == 0 && Tick(c) == c;
          BootListFrom(states, rest);
          LaterTicks(events, false);
        }
      case Queued =>
        BootListFrom(states + [Suspended], rest);
        LaterTicks(events, true);
    }
  }

  /** A tick that counts, among the events behind the first. */
  lemma LaterTicks(events: seq<Event>, some: bool)
    requires events != [] && events[0] == if some then Queued else Timer
    ensures (exists j :: 0 <= j < |events| && events[j] == Timer && exists i :: 0 <= i < j && events[i] == Queued) <==>
            (exists j :: 0 <= j < |events| - 1 && events[1..][j] == Timer &&
                         (some || exists i :: 0 <= i < j && events[1..][i] == Queued))
  {
    var rest := events[1..];
    if j, i :| 0 <= i < j < |events| && events[j] == Timer && events[i] == Queued {
      assert rest[j - 1] == Timer && (i > 0 ==> rest[i - 1] == Queued);
    }
    if j :| 0 <= j < |rest| && rest[j] == Timer && (some || exists i :: 0 <= i < j && rest[i] == Queued) {
      assert events[j + 1] == Timer;
      if some {
        assert events[0] == Queued;
      } else {
        var i :| 0 <= i < j && rest[i] == Queued;
        assert events[i + 1] == Queued;
      }
    }
  }

  function Ticks(c: Core, n: nat): (d: Core)
    requires c.Ok()
    ensures d.Ok() && |d.states| == |c.states|
  {
    if n == 0 then c else Tick(Ticks(c, n - 1))
  }

  /** `running_task` goes round the list, one task a tick, whatever the states are. */
  lemma {:induction false} TicksGoRound(c: Core, n: nat)
    requires c.Ok() && c.states != []
    ensures Ticks(c, n).Previous() == Turn(c.Previous() + n, |c.states|)
    ensures n > 0 ==> Ticks(c, n).running.Some?
  {
    if n > 0 {
      TicksGoRound(c, n - 1);
      StepTurn(c.Previous() + n - 1, |c.states|);
      Wrap(Ticks(c, n - 1).Previous(), |c.states|);
    }
  }

  lemma {:induction false} TicksStayClean(c: Core, n: nat)
    requires c.Clean()
    ensures Ticks(c, n).Clean()
  {
    if n > 0 {
      TicksStayClean(c, n - 1);
      var d := Ticks(c, n - 1);
      assert Run(d, [Timer]) == Tick(d);
      RunsStayClean(d, [Timer]);
    }
  }

  /** In as many ticks as there are tasks, each task gets its turn, and no tick but one is its. On a
      clean CPU it is then the one task that runs. */
  lemma EachRunsOnce(c: Core, task: nat) returns (n: nat)
    requires c.Ok() && task < |c.states|
    ensures 1 <= n <= |c.states| && Ticks(c, n).running == Some(task)
    ensures forall m :: 1 <= m <= |c.states| && Ticks(c, m).running == Some(task) ==> m == n
    ensures c.Clean() ==>
              forall k :: 0 <= k < |c.states| ==> Ticks(c, n).states[k] == if k == task then Running else Suspended
  {
    var k, size := c.Previous(), |c.states|;
    n := if task > k then task - k else task + size - k;
    if c.Clean() {
      TicksStayClean(c, n);
    }
    hide Tick, Turn, Ticks, Core.Ok;
    forall m: nat | 1 <= m <= size
      ensures Ticks(c, m).running == Some(if k + m < size then k + m else k + m - size)
    {
      RunningAfter(c, m);
    }
  }

  lemma RunningAfter(c: Core, m: nat)
    requires c.Ok() && 1 <= m <= |c.states|
    ensures var at := c.Previous() + m;
            Ticks(c, m).running == Some(if at < |c.states| then at else at - |c.states|)
  {
    TicksGoRound(c, m);
    PastTheEnd(c.Previous() + m, |c.states|);
  }

  lemma PastTheEnd(k: nat, n: nat)
    requires 0 < n && k < 2 * n
    ensures Turn(k, n) == if k < n then k else k - n
  {
    if k >= n {
      Quotient(1, k - n, n);
    }
  }
}
