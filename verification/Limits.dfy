/**
 Exactly which steps keep the invariant, and runs that lead to the others. The kernel carries out
 more than `Enabled` lists; each further step breaks the process tree or the agreement of user
 page, kernel stack and running terminal.
 */
module Limits {
  import opened Common
  import opened Kernel
  import opened Chains

  lemma TopsDiffer(p: int, q: int)
    ensures Top(p) == Top(q) <==> p == q
  {
  }

  /**
   After `execute` page, stack and running terminal agree if and only if the displayed terminal is the
   running one, or the number of its top process is used again.
   */
  lemma ExecuteCoherentExactly(k: State, chains: seq<Chain>, ticks: nat, displayed: nat, context: Context)
    requires Inv(k, chains, ticks) && k.pid != LAST_PID && displayed < TERMINALS
    ensures Coherent(Executed(k, displayed, context)) <==>
      displayed == k.currentTerminal || (!HasFreeSlot(k) && k.pid == k.terminalProcess[k.currentTerminal])
  {
    var p := NewPid(k);
    TopIsLive(k, chains, k.currentTerminal);
    TopsDiffer(p, k.terminalProcess[k.currentTerminal]);
  }

  /** The same for the shell that replaces a base shell that halts. */
  lemma BaseHaltCoherentExactly(k: State, chains: seq<Chain>, ticks: nat, displayed: nat, context: Context)
    requires Inv(k, chains, ticks) && |chains[k.currentTerminal]| == 1 && displayed < TERMINALS
    ensures CanHalt(k) && Ended(k).pid == UNUSED && HasFreeSlot(Ended(k))
    ensures Coherent(Halted(k, displayed, context)) <==> displayed == k.currentTerminal
  {
    TopIsLive(k, chains, k.currentTerminal);
    var p := Last(chains[k.currentTerminal]);
    assert Ended(k).processState[p] == 0;
  }

  /**
   In every state of a run each step is possible, except that a new process needs a free slot and
   the displayed terminal to be the one that runs, and that one of the first three ticks needs a
   free slot and an `execute` that is not refused.
   */
  lemma EnabledExactly(k: State, chains: seq<Chain>, ticks: nat, displayed: nat, context: Context)
    requires Inv(k, chains, ticks) && displayed < TERMINALS
    ensures Enabled(k, Tick(context)) <==> ticks >= TERMINALS || (k.pid != LAST_PID && HasFreeSlot(k))
    ensures Enabled(k, Execute(displayed, context)) <==>
      k.pid == LAST_PID || (displayed == k.currentTerminal && HasFreeSlot(k))
    ensures Enabled(k, Halt(displayed, context)) <==> |chains[k.currentTerminal]| > 1 || displayed == k.currentTerminal
  {
    hide Enabled, Inv;
    TickEnabled(k, chains, ticks, context);
    ExecuteEnabled(k, chains, ticks, displayed, context);
    HaltEnabled(k, chains, ticks, displayed, context);
  }

  lemma TickEnabled(k: State, chains: seq<Chain>, ticks: nat, context: Context)
    requires Inv(k, chains, ticks)
    ensures Enabled(k, Tick(context)) <==> ticks >= TERMINALS || (k.pid != LAST_PID && HasFreeSlot(k))
  {
    hide FreeSlotsClean, GoodChain, Disjoint, LiveExactly, Tops;
    TicksInTurn(k, chains, ticks);
    TopIsLive(k, chains, k.currentTerminal);
    LastIsTop(k, chains, k.currentTerminal);
    if ticks >= TERMINALS {
      TopIsLive(k, chains, NextTerminal(k));
      LastIsTop(k, chains, NextTerminal(k));
    }
  }

  lemma LastIsTop(k: State, chains: seq<Chain>, t: nat)
    requires Shape(k) && Tree(k, chains) && t < TERMINALS
    ensures k.terminalProcess[t] == Last(chains[t])
  {
    hide GoodChain, Disjoint, LiveExactly;
  }

  lemma ExecuteEnabled(k: State, chains: seq<Chain>, ticks: nat, displayed: nat, context: Context)
    requires Inv(k, chains, ticks) && displayed < TERMINALS
    ensures Enabled(k, Execute(displayed, context)) <==>
      k.pid == LAST_PID || (displayed == k.currentTerminal && HasFreeSlot(k))
  {
  }

  lemma HaltEnabled(k: State, chains: seq<Chain>, ticks: nat, displayed: nat, context: Context)
    requires Inv(k, chains, ticks) && displayed < TERMINALS
    ensures Enabled(k, Halt(displayed, context)) <==> |chains[k.currentTerminal]| > 1 || displayed == k.currentTerminal
  {
    hide FreeSlotsClean, Coherent;
    TopIsLive(k, chains, k.currentTerminal);
    if |chains[k.currentTerminal]| == 1 {
      BaseHaltCoherentExactly(k, chains, ticks, displayed, context);
    } else {
      ParentIsThere(k, chains, ticks);
    }
  }

  lemma ParentIsThere(k: State, chains: seq<Chain>, ticks: nat)
    requires Inv(k, chains, ticks) && |chains[k.currentTerminal]| > 1
    ensures CanHalt(k) && Ended(k).pid != UNUSED
  {
    hide FreeSlotsClean, Coherent;
    var c := chains[k.currentTerminal];
    TopIsLive(k, chains, k.currentTerminal);
    assert c[|c| - 2] in c;
  }

  // ---------- the process tree ----------

  /** Only process `p` may have another parent. */
  ghost predicate SameParents(pcbs: seq<Pcb>, pcbs': seq<Pcb>, p: int)
  {
    |pcbs| == |pcbs'| == SLOTS && forall q :: 0 <= q < SLOTS && q != p ==> pcbs'[q].parent == pcbs[q].parent
  }

  lemma OneDown(pcbs: seq<Pcb>, c: Chain, m: nat)
    requires |pcbs| == SLOTS && Linked(pcbs, c) && m < |c| && pcbs[c[m]].parent != UNUSED
    ensures m > 0 && c[m - 1] == pcbs[c[m]].parent
  {
    assert pcbs[c[m]].parent == ParentIn(c, m);
  }

  lemma ParentKept(pcbs: seq<Pcb>, pcbs': seq<Pcb>, p: int, q: int)
    requires SameParents(pcbs, pcbs', p) && IsSlot(q) && q != p
    ensures |pcbs| == |pcbs'| == SLOTS && pcbs'[q].parent == pcbs[q].parent
  {
  }

  lemma ParentBelow(pcbs: seq<Pcb>, c: Chain, i: nat)
    requires |pcbs| == SLOTS && Linked(pcbs, c) && i < |c|
    ensures IsSlot(c[i]) && (i > 0 ==> IsSlot(c[i - 1]) && pcbs[c[i]].parent == c[i - 1])
  {
    assert pcbs[c[i]].parent == ParentIn(c, i);
  }

  /** Walking down the parents from the place of `above[i]` meets every process that is below it in `above`. */
  lemma {:induction false} WalkMeets(pcbs: seq<Pcb>, pcbs': seq<Pcb>, above: Chain, c: Chain, p: int, i: nat, j: nat,
        m: nat)
    requires |pcbs| == |pcbs'| == SLOTS
    requires SameParents(pcbs, pcbs', p) && Linked(pcbs, above) && Linked(pcbs', c)
    requires j <= i < |above| && m < |c| && c[m] == above[i] && above[j] == p
    ensures p in c[..m + 1]
    decreases i
  {
    hide SameParents, Linked;
    assert c[..m + 1][m] == c[m];
    if above[i] != p {
      ParentBelow(pcbs, above, i);
      ParentKept(pcbs, pcbs', p, above[i]);
      OneDown(pcbs', c, m);
      WalkMeets(pcbs, pcbs', above, c, p, i - 1, j, m - 1);
      assert c[..m] <= c[..m + 1];
    }
  }

  /** A chain with the same top meets `p` too. */
  lemma TopMeets(pcbs: seq<Pcb>, pcbs': seq<Pcb>, above: Chain, c: Chain, p: int)
    requires SameParents(pcbs, pcbs', p) && Linked(pcbs, above) && Linked(pcbs', c)
    requires p in above && Last(c) == Last(above)
    ensures p in c
  {
    hide ParentIn;
    var j :| 0 <= j < |above| && above[j] == p;
    var i := |above| - 1;
    assert IsSlot(above[i]);
    hide SameParents, Linked;
    assert Last(above) == above[i];
    WalkMeets(pcbs, pcbs', above, c, p, i, j, |c| - 1);
    assert c[..|c|] == c;
  }

  /** A chain on which `p` comes after the former top meets `p` twice. */
  lemma ParentMeets(pcbs: seq<Pcb>, pcbs': seq<Pcb>, above: Chain, c: Chain, p: int)
    requires SameParents(pcbs, pcbs', p) && Linked(pcbs, above) && Linked(pcbs', c)
    requires p in above && IsSlot(p) && Last(c) == p && pcbs'[p].parent == Last(above)
    ensures !Distinct(c)
  {
    hide ParentIn;
    var j :| 0 <= j < |above| && above[j] == p;
    var i, m := |above| - 1, |c| - 1;
    assert IsSlot(above[i]);
    hide SameParents, Linked;
    assert Last(above) == above[i];
    OneDown(pcbs', c, m);
    WalkMeets(pcbs, pcbs', above, c, p, i, j, m - 1);
    var x :| 0 <= x < m && c[..m][x] == p;
    assert c[x] == c[m];
  }

  /** What the start of a process changes when no slot is free. */
  lemma StartedWhenFull(k: State, displayed: nat, context: Context)
    requires CanExecute(k, displayed) && !HasFreeSlot(k)
    ensures var r, t := Started(k, displayed, context), Target(k, displayed);
      && IsSlot(k.pid) && SameParents(k.pcbs, r.pcbs, k.pid)
      && r.pcbs[k.pid].parent == k.terminalProcess[t]
      && r.terminalProcess == k.terminalProcess[t := k.pid]
  {
  }

  /** Then every slot is on some chain. */
  lemma LiveWhenFull(k: State, chains: seq<Chain>, p: int) returns (u: nat)
    requires Shape(k) && Tree(k, chains) && !HasFreeSlot(k) && IsSlot(p)
    ensures u < TERMINALS && p in chains[u]
  {
    hide GoodChain, Disjoint;
    assert k.processState[p] != 0;
    assert OnChain(chains, p);
    u :| 0 <= u < TERMINALS && p in chains[u];
  }

  /** A process that comes on top of chain `t` and was on chain `u` is on two chains then, or twice on one. */
  lemma MetTwice(pcbs: seq<Pcb>, pcbs': seq<Pcb>, chains: seq<Chain>, c: seq<Chain>, t: nat, u: nat, p: int)
    requires SameParents(pcbs, pcbs', p) && |chains| == |c| == TERMINALS && t < TERMINALS && u < TERMINALS
    requires Linked(pcbs, chains[u]) && Linked(pcbs', c[t]) && Linked(pcbs', c[u]) && IsSlot(p) && p in chains[u]
    requires Last(c[t]) == p && pcbs'[p].parent == Last(chains[t]) && (u != t ==> Last(c[u]) == Last(chains[u]))
    ensures Disjoint(c) ==> !Distinct(c[t])
  {
    hide Linked, SameParents;
    if u == t {
      ParentMeets(pcbs, pcbs', chains[t], c[t], p);
    } else {
      TopMeets(pcbs, pcbs', chains[u], c[u], p);
      assert p in c[t];
    }
  }

  /** A number that is used again has its process on two chains, or twice on one. */
  lemma NoTreeWhenFull(k: State, chains: seq<Chain>, displayed: nat, context: Context, c: seq<Chain>)
    requires Shape(k) && Tree(k, chains) && CanExecute(k, displayed) && !HasFreeSlot(k)
    ensures !Tree(Started(k, displayed, context), c)
  {
    hide Started, FirstFree, HasFreeSlot, NewPid, SameParents, LiveExactly, Disjoint, Linked, StacksRemembered,
      Distinct;
    var r, t, p := Started(k, displayed, context), Target(k, displayed), k.pid;
    StartedWhenFull(k, displayed, context);
    var u := LiveWhenFull(k, chains, p);
    if Tops(r.terminalProcess, c) && Linked(r.pcbs, c[t]) && Linked(r.pcbs, c[u]) {
      MetTwice(k.pcbs, r.pcbs, chains, c, t, u, p);
    }
  }

  /** The process that is put on top of a terminal remembers the stack of the one that was there before. */
  lemma ParentStarted(k: State, chains: seq<Chain>, displayed: nat, context: Context, c: seq<Chain>)
    requires Shape(k) && Tree(k, chains) && CanExecute(k, displayed) && Tree(Started(k, displayed, context), c)
    ensures var t := Target(k, displayed); chains[t] == [] || k.esp0 == Top(Last(chains[t]))
  {
    var r, t, p := Started(k, displayed, context), Target(k, displayed), NewPid(k);
    if chains[t] != [] {
      TopIsLive(k, chains, t);
      assert Last(c[t]) == p;
      OneDown(r.pcbs, c[t], |c[t]| - 1);
    }
  }

  /** There is a process tree after the start of a process if and only if a slot was free and its parent started it. */
  lemma StartedTreeExactly(k: State, chains: seq<Chain>, displayed: nat, context: Context)
    requires Shape(k) && Tree(k, chains) && CanExecute(k, displayed)
    ensures (exists c :: Tree(Started(k, displayed, context), c)) <==>
      var t := Target(k, displayed); HasFreeSlot(k) && (chains[t] == [] || k.esp0 == Top(Last(chains[t])))
  {
    var t := Target(k, displayed);
    assert |chains| == TERMINALS && 0 <= t < TERMINALS;
    hide Tree, Shape;
    forall c | Tree(Started(k, displayed, context), c)
      ensures HasFreeSlot(k) && (chains[t] == [] || k.esp0 == Top(Last(chains[t])))
    {
      ParentStarted(k, chains, displayed, context, c);
      if !HasFreeSlot(k) {
        NoTreeWhenFull(k, chains, displayed, context, c);
      }
    }
    if HasFreeSlot(k) && (chains[t] == [] || k.esp0 == Top(Last(chains[t]))) {
      StartedTree(k, chains, displayed, context);
    }
  }

  lemma OwnTerminalExactly(k: State, chains: seq<Chain>, ticks: nat, displayed: nat)
    requires Inv(k, chains, ticks) && displayed < TERMINALS
    ensures chains[displayed] == [] || k.esp0 == Top(Last(chains[displayed])) <==>
      displayed == k.currentTerminal || k.terminalProcess[displayed] == UNUSED
  {
    hide FreeSlotsClean;
    EmptyIsUnused(k, chains, displayed);
    TopIsLive(k, chains, k.currentTerminal);
    if chains[displayed] != [] {
      TopIsLive(k, chains, displayed);
      TopsDiffer(Last(chains[displayed]), Last(chains[k.currentTerminal]));
    }
  }

  /**
   After `execute` there is a process tree if and only if a slot was free and the displayed terminal is
   the running one, or has no process yet.
   */
  lemma ExecuteTreeExactly(k: State, chains: seq<Chain>, ticks: nat, displayed: nat, context: Context)
    requires Inv(k, chains, ticks) && k.pid != LAST_PID && displayed < TERMINALS
    ensures (exists c :: Tree(Executed(k, displayed, context), c)) <==>
      HasFreeSlot(k) && (displayed == k.currentTerminal || k.terminalProcess[displayed] == UNUSED)
  {
    assert Shape(k) && Tree(k, chains) && CanExecute(k, displayed) && Target(k, displayed) == displayed;
    hide Tree, Started, Inv, Shape, CanExecute;
    assert Executed(k, displayed, context) == Started(k, displayed, context);
    StartedTreeExactly(k, chains, displayed, context);
    OwnTerminalExactly(k, chains, ticks, displayed);
  }

  // ---------- every step ----------

  /** A tick that starts a shell: page, stack and terminal agree exactly if `execute` is not refused. */
  lemma ShellCoherentExactly(k: State, chains: seq<Chain>, ticks: nat, context: Context)
    requires Inv(k, chains, ticks) && ticks < TERMINALS
    ensures CanTick(k) && StartsShell(k)
    ensures Coherent(Ticked(k, context)) <==> k.pid != LAST_PID
  {
    TicksInTurn(k, chains, ticks);
    TopIsLive(k, chains, k.currentTerminal);
  }

  /**
   If it is refused, the interrupted process goes on with its own registers, stack and page, but the
   running terminal is from then on one that has no process.
   */
  lemma RefusedShell(k: State, chains: seq<Chain>, ticks: nat, context: Context)
    requires Inv(k, chains, ticks) && ticks < TERMINALS && k.pid == LAST_PID
    ensures CanTick(k) && Resumed(k, context) == context
    ensures var r := Ticked(k, context);
      && r.currentTerminal == ticks && r.terminalProcess == k.terminalProcess && r.terminalProcess[ticks] == -1
      && r.page == k.page && r.esp0 == k.esp0 && r.processState == k.processState
  {
    TicksInTurn(k, chains, ticks);
    TopIsLive(k, chains, k.currentTerminal);
  }

  /** Otherwise there is a process tree after it exactly if a slot was free. */
  lemma ShellTreeExactly(k: State, chains: seq<Chain>, ticks: nat, context: Context)
    requires Inv(k, chains, ticks) && ticks < TERMINALS && k.pid != LAST_PID
    ensures CanTick(k) && ((exists c :: Tree(Ticked(k, context), c)) <==> HasFreeSlot(k))
  {
    ShellCoherentExactly(k, chains, ticks, context);
    TicksInTurn(k, chains, ticks);
    var s, n := SwitchedOut(k, context), NextTerminal(k);
    SavedKeepsTree(k, chains, Outgoing(k), context);
    SameTree(k.(pcbs := s.pcbs), s, chains);
    var c := s.(ready := true, currentTerminal := n);
    SameTree(s, c, chains);
    StartedTreeExactly(c, chains, 0, context);
  }

  /** The invariant holds after the step, for some chains. */
  ghost predicate Keeps(k: State, ticks: nat, e: Event)
    requires Possible(k, e)
  {
    Sound(Step(k, e), TicksAfter(ticks, e))
  }

  /** The steps that keep the invariant are exactly those of `Enabled`. */
  lemma StepKeepsExactly(k: State, chains: seq<Chain>, ticks: nat, e: Event)
    requires Inv(k, chains, ticks) && Possible(k, e)
    requires e.Execute? || e.Halt? ==> e.displayed < TERMINALS
    ensures Keeps(k, ticks, e) <==> Enabled(k, e)
  {
    if Enabled(k, e) {
      StepKeeps(k, chains, ticks, e);
    } else {
      match e
      case Tick(context) => TickBreaks(k, chains, ticks, context);
      case Execute(displayed, context) =>
        ExecuteTreeExactly(k, chains, ticks, displayed, context);
        ExecuteCoherentExactly(k, chains, ticks, displayed, context);
      case Halt(displayed, context) =>
        HaltEnabled(k, chains, ticks, displayed, context);
        BaseHaltCoherentExactly(k, chains, ticks, displayed, context);
    }
  }

  lemma TickBreaks(k: State, chains: seq<Chain>, ticks: nat, context: Context)
    requires Inv(k, chains, ticks) && CanTick(k) && !Enabled(k, Tick(context))
    ensures !Keeps(k, ticks, Tick(context))
  {
    TickEnabled(k, chains, ticks, context);
    ShellCoherentExactly(k, chains, ticks, context);
    if k.pid != LAST_PID {
      ShellTreeExactly(k, chains, ticks, context);
    }
  }

  // ---------- runs that lead to the limits ----------

  lemma {:induction false} RunOneMore(k: State, events: seq<Event>, e: Event)
    requires AllEnabled(k, events) && Enabled(Run(k, events), e)
    ensures AllEnabled(k, events + [e]) && Run(k, events + [e]) == Step(Run(k, events), e)
    decreases |events|
  {
    if events == [] {
      assert [] + [e] == [e] && [e][1..] == [];
    } else {
      assert (events + [e])[1..] == events[1..] + [e];
      RunOneMore(Step(k, events[0]), events[1..], e);
    }
  }

  /**
   The run `events` from `k` is possible and leads to these chains and this last number; `live` are the slots
   in use.
   */
  ghost predicate Leads(k: State, events: seq<Event>, chains: seq<Chain>, ticks: nat, pid: int, live: set<int>)
  {
    && AllEnabled(k, events)
    && Inv(Run(k, events), chains, ticks) && Run(k, events).pid == pid
    && forall p :: OnChain(chains, p) <==> p in live
  }

  /** The lowest slot that is not in `live`. */
  ghost predicate Lowest(live: set<int>, f: int)
  {
    IsSlot(f) && f !in live && forall p :: 0 <= p < f ==> p in live
  }

  lemma LowestIsNew(k: State, chains: seq<Chain>, live: set<int>, f: int)
    requires Shape(k) && Tree(k, chains) && (forall p :: OnChain(chains, p) <==> p in live) && Lowest(live, f)
    ensures HasFreeSlot(k) && NewPid(k) == f
  {
    hide GoodChain, Tops;
    assert k.processState[f] == 0;
    forall q | 0 <= q < f ensures k.processState[q] != 0 {
      assert OnChain(chains, q);
    }
  }

  lemma LeadsExecute(k: State, events: seq<Event>, chains: seq<Chain>, ticks: nat, pid: int, live: set<int>, f: int,
        x: Context)
    requires Leads(k, events, chains, ticks, pid, live) && pid != LAST_PID && Lowest(live, f)
    ensures var t := (ticks - 1) % TERMINALS;
      ticks >= 1 && |chains| == TERMINALS
      && Leads(k, events + [Execute(t, x)], Grown(chains, t, f), ticks, f, live + {f})
  {
    var r, t := Run(k, events), (ticks - 1) % TERMINALS;
    LowestIsNew(r, chains, live, f);
    RunOneMore(k, events, Execute(t, x));
    ExecuteKeeps(r, chains, ticks, t, x);
    GrownOnChain(chains, t, f);
    hide Inv, AllEnabled, Run;
  }

  /** One of the first three ticks. */
  lemma LeadsShell(k: State, events: seq<Event>, chains: seq<Chain>, ticks: nat, pid: int, live: set<int>, f: int,
        x: Context)
    requires Leads(k, events, chains, ticks, pid, live) && pid != LAST_PID && Lowest(live, f) && ticks < TERMINALS
    ensures |chains| == TERMINALS && Leads(k, events + [Tick(x)], Grown(chains, ticks, f), ticks + 1, f, live + {f})
  {
    var r := Run(k, events);
    LowestIsNew(r, chains, live, f);
    TickEnabled(r, chains, ticks, x);
    ShellPid(r, chains, ticks, x);
    RunOneMore(k, events, Tick(x));
    TickKeeps(r, chains, ticks, x);
    GrownOnChain(chains, ticks, f);
    hide Inv, AllEnabled, Run, Ticked;
  }

  lemma ShellPid(k: State, chains: seq<Chain>, ticks: nat, x: Context)
    requires Inv(k, chains, ticks) && ticks < TERMINALS && k.pid != LAST_PID
    ensures CanTick(k) && Ticked(k, x).pid == NewPid(k)
  {
    ShellCoherentExactly(k, chains, ticks, x);
  }

  lemma LeadsTick(k: State, events: seq<Event>, chains: seq<Chain>, ticks: nat, pid: int, live: set<int>, x: Context)
    requires Leads(k, events, chains, ticks, pid, live) && ticks >= TERMINALS
    ensures Leads(k, events + [Tick(x)], chains, ticks + 1, pid, live)
  {
    var r := Run(k, events);
    TickEnabled(r, chains, ticks, x);
    TickPid(r, chains, ticks, x);
    RunOneMore(k, events, Tick(x));
    TickKeeps(r, chains, ticks, x);
    hide Inv, AllEnabled, Run, Ticked;
  }

  lemma TickPid(k: State, chains: seq<Chain>, ticks: nat, x: Context)
    requires Inv(k, chains, ticks) && ticks >= TERMINALS && CanTick(k)
    ensures Ticked(k, x).pid == k.pid
  {
    TicksInTurn(k, chains, ticks);
  }

  lemma LeadsHalt(k: State, events: seq<Event>, chains: seq<Chain>, ticks: nat, pid: int, live: set<int>, x: Context)
    requires Leads(k, events, chains, ticks, pid, live)
    requires var t := (ticks - 1) % TERMINALS; |chains| == TERMINALS && |chains[t]| > 1
    ensures var t := (ticks - 1) % TERMINALS;
      var c := chains[t];
      Leads(k, events + [Halt(t, x)], Shrunk(chains, t), ticks, c[|c| - 2], live - {Last(c)})
  {
    var r, t := Run(k, events), (ticks - 1) % TERMINALS;
    HaltEnabled(r, chains, ticks, t, x);
    HaltPid(r, chains, ticks, t, x);
    RunOneMore(k, events, Halt(t, x));
    HaltKeeps(r, chains, ticks, t, x);
    ShrunkOnChain(chains, t);
    hide Inv, AllEnabled, Run, Halted;
  }

  lemma HaltPid(k: State, chains: seq<Chain>, ticks: nat, displayed: nat, x: Context)
    requires Inv(k, chains, ticks) && |chains[k.currentTerminal]| > 1
    ensures CanHalt(k) && Ended(k).pid != UNUSED
    ensures var c := chains[k.currentTerminal]; Halted(k, displayed, x).pid == c[|c| - 2]
  {
    ParentIsThere(k, chains, ticks);
    TopIsLive(k, chains, k.currentTerminal);
  }

  lemma LeadsFirst(k: State)
    requires AfterFirstTick(k)
    ensures Leads(k, [], [[0], [], []], 1, 0, {0})
  {
    var pcbs: seq<Pcb>, page: int, context: Context :| FirstState(k, pcbs, page, context);
    FirstTick(pcbs, page, context);
    assert [[0], [], []][0] == [0];
  }

  /** Three shells, three more processes, one of them halted in time for another two. */
  function FullRun(x: Context): seq<Event>
  {
    [Tick(x), Tick(x), Execute(2, x), Execute(2, x), Tick(x), Execute(0, x), Tick(x), Tick(x), Halt(2, x),
      Execute(2, x), Execute(2, x)]
  }

  lemma FullRunLeads(k: State, x: Context) returns (chains: seq<Chain>)
    requires AfterFirstTick(k)
    ensures Leads(k, FullRun(x), chains, 6, 6, {0, 1, 2, 3, 4, 5, 6})
  {
    hide Leads;
    var c: seq<Chain> := [[0], [], []];
    LeadsFirst(k);
    LeadsShell(k, [], c, 1, 0, {0}, 1, x);
    var c1 := Grown(c, 1, 1);
    LeadsShell(k, [] + [Tick(x)], c1, 2, 1, {0} + {1}, 2, x);
    var c2 := Grown(c1, 2, 2);
    var e2 := [Tick(x), Tick(x)];
    assert [] + [Tick(x)] + [Tick(x)] == e2 && {0} + {1} + {2} == {0, 1, 2};
    LeadsExecute(k, e2, c2, 3, 2, {0, 1, 2}, 3, x);
    var c3 := Grown(c2, 2, 3);
    LeadsExecute(k, e2 + [Execute(2, x)], c3, 3, 3, {0, 1, 2} + {3}, 4, x);
    var c4 := Grown(c3, 2, 4);
    var e4 := [Tick(x), Tick(x), Execute(2, x), Execute(2, x)];
    assert e2 + [Execute(2, x)] + [Execute(2, x)] == e4 && {0, 1, 2} + {3} + {4} == {0, 1, 2, 3, 4};
    LeadsTick(k, e4, c4, 3, 4, {0, 1, 2, 3, 4}, x);
    LeadsExecute(k, e4 + [Tick(x)], c4, 4, 4, {0, 1, 2, 3, 4}, 5, x);
    var c5 := Grown(c4, 0, 5);
    var e5 := [Tick(x), Tick(x), Execute(2, x), Execute(2, x), Tick(x), Execute(0, x)];
    assert e4 + [Tick(x)] + [Execute(0, x)] == e5 && {0, 1, 2, 3, 4} + {5} == {0, 1, 2, 3, 4, 5};
    assert c5[2] == [2, 3, 4];
    chains := FullRunEnds(k, x, e5, c5);
  }

  lemma FullRunEnds(k: State, x: Context, e5: seq<Event>, c5: seq<Chain>) returns (chains: seq<Chain>)
    requires e5 == [Tick(x), Tick(x), Execute(2, x), Execute(2, x), Tick(x), Execute(0, x)]
    requires |c5| == TERMINALS && c5[2] == [2, 3, 4] && Leads(k, e5, c5, 4, 5, {0, 1, 2, 3, 4, 5})
    ensures Leads(k, FullRun(x), chains, 6, 6, {0, 1, 2, 3, 4, 5, 6})
  {
    hide Leads;
    LeadsTick(k, e5, c5, 4, 5, {0, 1, 2, 3, 4, 5}, x);
    LeadsTick(k, e5 + [Tick(x)], c5, 5, 5, {0, 1, 2, 3, 4, 5}, x);
    var e6 := e5 + [Tick(x)] + [Tick(x)];
    LeadsHalt(k, e6, c5, 6, 5, {0, 1, 2, 3, 4, 5}, x);
    var c6 := Shrunk(c5, 2);
    assert {0, 1, 2, 3, 4, 5} - {4} == {0, 1, 2, 3, 5};
    LeadsExecute(k, e6 + [Halt(2, x)], c6, 6, 3, {0, 1, 2, 3, 5}, 4, x);
    var c7 := Grown(c6, 2, 4);
    assert {0, 1, 2, 3, 5} + {4} == {0, 1, 2, 3, 4, 5};
    LeadsExecute(k, e6 + [Halt(2, x)] + [Execute(2, x)], c7, 6, 4, {0, 1, 2, 3, 4, 5}, 6, x);
    chains := Grown(c7, 2, 6);
    assert {0, 1, 2, 3, 4, 5} + {6} == {0, 1, 2, 3, 4, 5, 6};
    assert e6 + [Halt(2, x)] + [Execute(2, x)] + [Execute(2, x)] == FullRun(x);
  }

  /**
   The table of processes can fill up without `execute` refusing: after this run, all of whose steps keep
   the invariant, the next `execute` of the running process leaves no process tree.
   */
  lemma TreeCanBreak(k: State, x: Context)
    requires AfterFirstTick(k)
    ensures AllEnabled(k, FullRun(x))
    ensures var r := Run(k, FullRun(x));
      Possible(r, Execute(2, x)) && !HasFreeSlot(r) && r.currentTerminal == 2 && r.pid == 6
      && forall c :: !Tree(Step(r, Execute(2, x)), c)
  {
    hide AllEnabled, Run, Step, FullRun, Inv, Tree, Possible;
    var chains := FullRunLeads(k, x);
    FullTableBreaks(Run(k, FullRun(x)), chains, x);
  }

  lemma FullTableBreaks(k: State, chains: seq<Chain>, x: Context)
    requires Inv(k, chains, 6) && k.pid == 6 && forall p :: IsSlot(p) ==> OnChain(chains, p)
    ensures Possible(k, Execute(2, x)) && !HasFreeSlot(k) && k.currentTerminal == 2
    ensures forall c :: !Tree(Step(k, Execute(2, x)), c)
  {
    NoSlotLeft(k, chains);
    ExecutePossible(k, chains, 6, x);
    assert Step(k, Execute(2, x)) == Executed(k, 2, x);
    hide Tree, Inv, Started;
    ExecuteTreeExactly(k, chains, 6, 2, x);
  }

  lemma ExecutePossible(k: State, chains: seq<Chain>, ticks: nat, x: Context)
    requires Inv(k, chains, ticks)
    ensures Possible(k, Execute(k.currentTerminal, x))
  {
    hide Tree, FreeSlotsClean;
  }

  lemma NoSlotLeft(k: State, chains: seq<Chain>)
    requires Shape(k) && Tree(k, chains) && forall p :: IsSlot(p) ==> OnChain(chains, p)
    ensures !HasFreeSlot(k)
  {
    hide GoodChain, Tops, OnChain;
    forall p | 0 <= p < SLOTS ensures k.processState[p] == 1 {
      assert IsSlot(p);
    }
  }

  /** Five processes on the first terminal before the second tick. */
  function EarlyRun(x: Context): seq<Event>
  {
    [Execute(0, x), Execute(0, x), Execute(0, x), Execute(0, x), Execute(0, x)]
  }

  lemma EarlyRunLeads(k: State, x: Context) returns (chains: seq<Chain>)
    requires AfterFirstTick(k)
    ensures Leads(k, EarlyRun(x), chains, 1, LAST_PID, {0, 1, 2, 3, 4, 5})
  {
    hide Leads;
    var c: seq<Chain>, e := [[0], [], []], Execute(0, x);
    LeadsFirst(k);
    LeadsExecute(k, [], c, 1, 0, {0}, 1, x);
    var c1 := Grown(c, 0, 1);
    LeadsExecute(k, [] + [e], c1, 1, 1, {0} + {1}, 2, x);
    var c2 := Grown(c1, 0, 2);
    assert {0} + {1} + {2} == {0, 1, 2} && [] + [e] + [e] == [e, e];
    LeadsExecute(k, [e, e], c2, 1, 2, {0, 1, 2}, 3, x);
    var c3 := Grown(c2, 0, 3);
    LeadsExecute(k, [e, e] + [e], c3, 1, 3, {0, 1, 2} + {3}, 4, x);
    var c4 := Grown(c3, 0, 4);
    assert {0, 1, 2} + {3} + {4} == {0, 1, 2, 3, 4} && [e, e] + [e] + [e] == [e, e, e, e];
    LeadsExecute(k, [e, e, e, e], c4, 1, 4, {0, 1, 2, 3, 4}, 5, x);
    chains := Grown(c4, 0, 5);
    assert {0, 1, 2, 3, 4} + {5} == {0, 1, 2, 3, 4, 5} && [e, e, e, e] + [e] == EarlyRun(x);
  }

  /** A terminal can stay without a shell: after this run the next tick's `execute` is refused. */
  lemma ShellCanBeRefused(k: State, x: Context)
    requires AfterFirstTick(k)
    ensures AllEnabled(k, EarlyRun(x))
    ensures var r := Run(k, EarlyRun(x));
      CanTick(r) && StartsShell(r) && r.pid == LAST_PID && !Coherent(Ticked(r, x))
  {
    var chains := EarlyRunLeads(k, x);
    ShellCoherentExactly(Run(k, EarlyRun(x)), chains, 1, x);
  }
}
