/** How a sequence of assignments spreads tasks over CPUs: task `k` goes to CPU `homes[k]`. */
module Balance {
  import opened Arith

  /** The tasks CPU `c` gets, in queue order. */
  function Share(homes: seq<nat>, c: nat): (s: seq<nat>)
    ensures |s| <= |homes|
    ensures forall x :: 0 <= x < |s| ==> s[x] < |homes| && homes[s[x]] == c
  {
    if homes == [] then []
    else
      var last := |homes| - 1;
      var s := Share(homes[..last], c);
      if homes[last] == c then s + [last] else s
  }

  /** Each task is in exactly one CPU's share, in exactly one place, and shares keep the queue's
      order. */
  lemma {:induction false} SharesPartition(homes: seq<nat>, c: nat)
    ensures forall x, y :: 0 <= x < y < |Share(homes, c)| ==> Share(homes, c)[x] < Share(homes, c)[y]
    ensures forall k: nat :: k in Share(homes, c) <==> k < |homes| && homes[k] == c
  {
    if homes != [] {
      var last := |homes| - 1;
      var s := Share(homes[..last], c);
      SharesPartition(homes[..last], c);
      forall k: nat
        ensures k in Share(homes, c) <==> k < |homes| && homes[k] == c
      {
        assert k in Share(homes, c) <==> k in s || (k == last && homes[last] == c);
      }
    }
  }

  lemma ShareGrows(homes: seq<nat>, c: nat, home: nat)
    ensures Share(homes + [home], c) == if home == c then Share(homes, c) + [|homes|] else Share(homes, c)
  {
    assert (homes + [home])[..|homes|] == homes;
  }

  // ----- turns and blocks -----

  /** Whose turn it is after `k` turns around `n` CPUs. */
  function Turn(k: nat, n: nat): (c: nat)
    requires n > 0
    ensures c < n && (k < n ==> c == k)
  {
    k % n
  }

  lemma StepTurn(k: nat, n: nat)
    requires n > 0
    ensures Turn(k + 1, n) == if Turn(k, n) + 1 == n then 0 else Turn(k, n) + 1
  {
    NextTurn(k, n);
  }

  /** Where CPU `i`'s block starts. */
  function Start(i: nat, share: nat): (s: nat)
    ensures i == 0 ==> s == 0
  {
    i * share
  }

  // ----- the plan of assign_tasks_to_cpus -----

  /** `s` is the number of tasks created over the number of CPUs, rounded down, or with more CPUs than
      tasks the other way round. */
  predicate IsShare(s: nat, pid: nat, n: nat) {
    if n <= pid then s * n <= pid < (s + 1) * n else s * pid <= n < (s + 1) * pid
  }

  /** Tasks per CPU in the first round: the tasks created over the CPUs, or the other way round. */
  function ShareSize(pid: nat, n: nat): (s: nat)
    requires pid > 0 && n > 0
    ensures s > 0 && IsShare(s, pid, n)
  {
    if n > pid then
      DivPositive(n, pid);
      n / pid
    else
      DivPositive(pid, n);
      pid / n
  }

  lemma DivPositive(a: nat, b: nat)
    requires a >= b > 0
    ensures a / b > 0 && a / b * b <= a < (a / b + 1) * b
  {
    DivMod(a, b);
    if a / b < 1 {
      ScaleGrows(a / b, 0, b);
    }
  }

  /** How many of `q` tasks the first round places: it stops short of the last task when that
      would start another CPU's share. */
  function Cut(q: nat, share: nat, n: nat): (a: nat)
    requires share > 0 && q > 0
    ensures a <= q
  {
    if q > n * share then n * share else if (q - 1) % share == 0 then q - 1 else q
  }

  /** The first `q` tasks go out in blocks of `share`, what the blocks leave over one by one, and
      every later task one by one again from the first CPU. */
  function Home(k: nat, q: nat, share: nat, n: nat): nat
    requires share > 0 && q > 0 && n > 0
  {
    if k < Cut(q, share, n) then k / share
    else if k < q then Turn(k - Cut(q, share, n), n)
    else Turn(k - q, n)
  }

  ghost predicate InBlocks(homes: seq<nat>, share: nat)
    requires share > 0
  {
    forall k :: 0 <= k < |homes| ==> homes[k] == k / share
  }

  /** From the `a`th task on the CPUs take turns. */
  ghost predicate InTurns(homes: seq<nat>, a: nat, n: nat)
    requires n > 0
  {
    forall k :: a <= k < |homes| ==> homes[k] == Turn(k - a, n)
  }

  lemma NoBlocks(share: nat)
    requires share > 0
    ensures InBlocks([], share)
  {
  }

  lemma BlockStep(homes: seq<nat>, share: nat, i: nat, j: nat)
    requires j < share && |homes| == Start(i, share) + j && InBlocks(homes, share)
    ensures InBlocks(homes + [i], share)
  {
    Quotient(i, j, share);
  }

  /** From the `a`th task on the CPUs have taken turns, and it is CPU `i`'s. */
  ghost predicate Due(homes: seq<nat>, a: nat, n: nat, i: nat) {
    a <= |homes| && n > 0 && InTurns(homes, a, n) && i == Turn(|homes| - a, n)
  }

  lemma FirstTurn(homes: seq<nat>, n: nat)
    requires n > 0
    ensures Due(homes, |homes|, n, 0)
  {
  }

  lemma TurnStep(homes: seq<nat>, a: nat, n: nat, i: nat)
    requires Due(homes, a, n, i)
    ensures i < n && Due(homes + [i], a, n, if i + 1 == n then 0 else i + 1)
  {
    StepTurn(|homes| - a, n);
  }

  /** Where the rounds stop: at the end of a full block, or with the last task inside one. */
  lemma CutAt(q: nat, share: nat, n: nat, i: nat, j: nat)
    requires i < n && j < share && q == Start(i, share) + j + 1
    ensures Cut(q, share, n) == if j == 0 then q - 1 else q
  {
    Quotient(i, j, share);
    ScaleGrows(i + 1, n, share);
  }

  lemma CutFull(q: nat, share: nat, n: nat)
    requires share > 0 && q > Start(n, share)
    ensures Cut(q, share, n) == Start(n, share)
  {
  }

  lemma NextBlock(i: nat, share: nat)
    ensures Start(i, share) + share == Start(i + 1, share)
  {
  }

  lemma PlanIsFollowed(homes: seq<nat>, blocks: seq<nat>, q: nat, share: nat, n: nat)
    requires share > 0 && q > 0 && n > 0
    requires |homes| == q && blocks <= homes && |blocks| == Cut(q, share, n)
    requires InBlocks(blocks, share) && exists i :: Due(homes, |blocks|, n, i)
    ensures Follows(homes, q, share, n)
  {
    hide Cut;
  }

  /** The tasks follow the plan, and `i` is the CPU for the next one. */
  ghost predicate Planned(homes: seq<nat>, q: nat, share: nat, n: nat, i: nat) {
    && n > 0 && 0 < q <= |homes| && share > 0
    && i == Turn(|homes| - q, n) && Follows(homes, q, share, n)
  }

  lemma PlanStarts(homes: seq<nat>, share: nat, n: nat)
    requires share > 0 && homes != [] && n > 0 && Follows(homes, |homes|, share, n)
    ensures Planned(homes, |homes|, share, n, 0)
  {
    hide Follows;
  }

  lemma PlanGoesOn(homes: seq<nat>, q: nat, share: nat, n: nat, i: nat)
    requires Planned(homes, q, share, n, i)
    ensures i < n && Turn(i + 1, n) == (if i + 1 == n then 0 else i + 1)
    ensures Planned(homes + [i], q, share, n, if i + 1 == n then 0 else i + 1)
  {
    hide Cut;
    assert Cut(q, share, n) <= q;
    StepTurn(|homes| - q, n);
    StepTurn(i, n);
  }

  ghost predicate Follows(homes: seq<nat>, q: nat, share: nat, n: nat)
    requires share > 0 && q > 0 && n > 0
  {
    forall k :: 0 <= k < |homes| ==> homes[k] == Home(k, q, share, n)
  }

  /** How often CPU `c` is hit by `k` turns around `n` CPUs. */
  function Turns(k: nat, c: nat, n: nat): nat
    requires n > 0
  {
    if c < k % n then k / n + 1 else k / n
  }

  /** The part of CPU `c`'s block among the first `a` tasks. */
  function Block(a: nat, c: nat, share: nat): nat {
    if a <= c * share then 0 else if a >= c * share + share then share else a - c * share
  }

  lemma NextTurn(k: nat, n: nat)
    requires n > 0
    ensures if k % n + 1 == n then (k + 1) / n == k / n + 1 && (k + 1) % n == 0
            else (k + 1) / n == k / n && (k + 1) % n == k % n + 1
  {
    var d, m := k / n, k % n;
    assert k == d * n + m;
    if m + 1 == n {
      assert k + 1 == (d + 1) * n;
      Quotient(d + 1, 0, n);
    } else {
      Quotient(d, m + 1, n);
    }
  }

  lemma BlockOfNone(c: nat, share: nat)
    ensures Block(0, c, share) == 0
  {
  }

  lemma BlockGrows(a: nat, c: nat, share: nat)
    requires share > 0
    ensures Block(a + 1, c, share) == Block(a, c, share) + if a / share == c then 1 else 0
  {
    var d := a / share;
    DivMod(a, share);
    if d < c {
      ScaleGrows(d + 1, c, share);
    } else if d > c {
      ScaleGrows(c + 1, d, share);
    }
  }

  /** The exact load of each CPU. */
  function Load(m: nat, c: nat, q: nat, share: nat, n: nat): nat
    requires share > 0 && q > 0 && n > 0
  {
    var a := Cut(q, share, n);
    if m <= a then Block(m, c, share)
    else if m <= q then Block(a, c, share) + Turns(m - a, c, n)
    else Block(a, c, share) + Turns(q - a, c, n) + Turns(m - q, c, n)
  }

  lemma {:induction false} LoadIsExact(homes: seq<nat>, c: nat, q: nat, share: nat, n: nat)
    requires share > 0 && q > 0 && c < n && Follows(homes, q, share, n)
    ensures |Share(homes, c)| == Load(|homes|, c, q, share, n)
    decreases |homes|
  {
    hide Cut, Turns, Block, Turn;
    BlockOfNone(c, share);
    TurnsGrow(0, c, n);
    var a := Cut(q, share, n);
    if homes != [] {
      var last := |homes| - 1;
      LoadIsExact(homes[..last], c, q, share, n);
      if last < a {
        BlockGrows(last, c, share);
      } else if last < q {
        TurnsGrow(last - a, c, n);
      } else {
        TurnsGrow(last - q, c, n);
      }
    }
  }

  lemma TurnsGrow(k: nat, c: nat, n: nat)
    requires c < n
    ensures Turns(0, c, n) == 0
    ensures Turns(k + 1, c, n) == Turns(k, c, n) + if Turn(k, n) == c then 1 else 0
  {
    NextTurn(k, n);
  }

  /** The first distribution leaves every CPU at most one task above its share exactly when the
      tasks left over do not outnumber the CPUs. */
  lemma FirstLoadBound(q: nat, share: nat, n: nat)
    requires share > 0 && q > 0 && n > 0
    ensures (forall c: nat :: c < n ==> Load(q, c, q, share, n) <= share + 1) <==> q <= n * share + n
  {
    hide Turns;
    var a := Cut(q, share, n);
    if q <= n * share + n {
      forall c: nat | c < n
        ensures Load(q, c, q, share, n) <= share + 1
      {
        TurnsWithin(q - a, c, n);
      }
    } else {
      BlockFull(n, share);
      TurnsBeyond(q - a, n);
      assert Load(q, 0, q, share, n) > share + 1;
    }
  }

  lemma BlockFull(n: nat, share: nat)
    requires n > 0
    ensures Block(n * share, 0, share) == share
  {
    assert n * share >= share;
  }

  lemma TurnsWithin(k: nat, c: nat, n: nat)
    requires c < n
    ensures k <= n ==> Turns(k, c, n) <= 1
    ensures k / n <= Turns(k, c, n) <= (k + n - 1) / n
  {
    var d, m := k / n, k % n;
    DivMod(k, n);
    if m == 0 {
      assert k + n - 1 == d * n + (n - 1);
      Quotient(d, n - 1, n);
    } else {
      assert k + n - 1 == (d + 1) * n + (m - 1);
      Quotient(d + 1, m - 1, n);
    }
    if d >= 2 {
      ScaleGrows(2, d, n);
    }
  }

  lemma TurnsBeyond(k: nat, n: nat)
    requires k > n > 0
    ensures Turns(k, 0, n) >= 2
  {
    var d, m := k / n, k % n;
    assert k == d * n + m;
    if d < 2 {
      assert d * n <= n;
    }
  }

  /** With no more tasks queued than created, no CPU gets more than one task above the quotient of the
      tasks created and the CPUs. */
  lemma CountedTasksKeepTheBound(q: nat, pid: nat, n: nat, c: nat)
    requires 0 < q <= pid && c < n
    ensures Load(q, c, q, ShareSize(pid, n), n) <= (if n > pid then n / pid else pid / n) + 1
  {
    hide Load;
    var share := ShareSize(pid, n);
    EnoughShares(q, pid, n, share);
    FirstLoadBound(q, share, n);
    QuotientIs(share, pid, n);
  }

  lemma EnoughShares(q: nat, pid: nat, n: nat, share: nat)
    requires 0 < q <= pid && n > 0 && share > 0 && (n <= pid ==> pid < (share + 1) * n)
    ensures q <= n * share + n
  {
    assert (share + 1) * n == n * share + n;
    if n > pid {
      ScaleGrows(1, share, n);
    }
  }

  lemma QuotientIs(share: nat, pid: nat, n: nat)
    requires pid > 0 && n > 0 && IsShare(share, pid, n)
    ensures share == if n > pid then n / pid else pid / n
  {
    if n > pid {
      Quotient(share, n - share * pid, pid);
    } else {
      Quotient(share, pid - share * n, n);
    }
  }

  /** `k` tasks queued after the distribution add the same number to every CPU up to one, and at
      most their number over the CPUs, rounded up. */
  lemma LaterLoads(k: nat, c: nat, d: nat, q: nat, share: nat, n: nat)
    requires share > 0 && q > 0 && c < n && d < n
    ensures var added := Load(q + k, c, q, share, n) - Load(q, c, q, share, n);
            var other := Load(q + k, d, q, share, n) - Load(q, d, q, share, n);
            added <= (k + n - 1) / n && added <= other + 1
  {
    hide Block, Cut;
    var a := Cut(q, share, n);
    TurnsGrow(0, c, n);
    TurnsGrow(0, d, n);
    TurnsWithin(k, c, n);
  }
}
