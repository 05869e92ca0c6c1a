/**
 What every interleaving of ticks and system calls keeps. A ghost list of chains, one for each
 terminal from its base shell up to the process on top, makes the process tree explicit.
 */
module Chains {
  import opened Common
  import opened Kernel

  type Chain = seq<int>

  function Last(c: Chain): int
  {
    if c == [] then UNUSED else c[|c| - 1]
  }

  /** The parent of the `i`-th process of a chain. */
  function ParentIn(c: Chain, i: nat): int
    requires i < |c|
  {
    if i == 0 then UNUSED else c[i - 1]
  }

  ghost predicate OnChain(chains: seq<Chain>, p: int)
  {
    exists t :: 0 <= t < |chains| && p in chains[t]
  }

  /** The scheduler's table names the last process of every chain. */
  ghost predicate Tops(terminalProcess: seq<int>, chains: seq<Chain>)
  {
    |terminalProcess| == |chains| == TERMINALS && forall t :: 0 <= t < TERMINALS ==>
      terminalProcess[t] == Last(chains[t])
  }

  /** Following `parent` goes down chain `c` and ends at its base. */
  ghost predicate Linked(pcbs: seq<Pcb>, c: Chain)
    requires |pcbs| == SLOTS
  {
    forall i :: 0 <= i < |c| ==> IsSlot(c[i]) && pcbs[c[i]].pid == c[i] && pcbs[c[i]].parent == ParentIn(c, i)
  }

  /** Every process other than a base shell remembers the kernel stack top of its parent. */
  ghost predicate StacksRemembered(pcbs: seq<Pcb>, c: Chain)
    requires |pcbs| == SLOTS && Linked(pcbs, c)
  {
    forall i :: 0 < i < |c| ==> pcbs[c[i]].esp0 == Top(c[i - 1])
  }

  ghost predicate Disjoint(chains: seq<Chain>)
  {
    forall t, u, p :: 0 <= t < u < |chains| && p in chains[t] ==> p !in chains[u]
  }

  /** The slots in use are exactly those on the chains. */
  ghost predicate LiveExactly(states: seq<int>, chains: seq<Chain>)
    requires |states| == SLOTS
  {
    forall p :: 0 <= p < SLOTS ==> states[p] == if OnChain(chains, p) then 1 else 0
  }

  ghost predicate GoodChain(pcbs: seq<Pcb>, c: Chain)
    requires |pcbs| == SLOTS
  {
    Linked(pcbs, c) && StacksRemembered(pcbs, c) && Distinct(c)
  }

  /** The process tree: one chain for each terminal, disjoint, made of exactly the slots in use. */
  ghost predicate Tree(k: State, chains: seq<Chain>)
    requires Shape(k)
  {
    && Tops(k.terminalProcess, chains)
    && (forall t :: 0 <= t < TERMINALS ==> GoodChain(k.pcbs, chains[t]))
    && Disjoint(chains)
    && LiveExactly(k.processState, chains)
  }

  /** The user page, the task state segment and the running terminal name the same process. */
  ghost predicate Coherent(k: State)
    requires Shape(k)
  {
    && 0 <= k.currentTerminal < TERMINALS
    && IsSlot(k.terminalProcess[k.currentTerminal])
    && k.esp0 == Top(k.terminalProcess[k.currentTerminal])
    && k.page == PageOf(k.terminalProcess[k.currentTerminal])
  }

  ghost predicate Clean(files: seq<File>)
  {
    forall fd :: MIN_FD <= fd < |files| ==> files[fd].flags == 0
  }

  /** The descriptors 2 to 7 of every free slot are closed. */
  ghost predicate FreeSlotsClean(k: State)
    requires Shape(k)
  {
    forall p :: 0 <= p < SLOTS && k.processState[p] == 0 ==> Clean(k.pcbs[p].files)
  }

  /** The terminals are visited in turn, and each has a shell from the `t + 1`-st tick on. */
  ghost predicate InTurn(k: State, chains: seq<Chain>, ticks: nat)
  {
    && |chains| == TERMINALS
    && ticks >= 1
    && k.currentTerminal == k.nextTerminal == (ticks - 1) % TERMINALS
    && forall t :: 0 <= t < TERMINALS ==> (chains[t] == [] <==> t >= ticks)
  }

  ghost predicate Inv(k: State, chains: seq<Chain>, ticks: nat)
  {
    && Shape(k)
    && Tree(k, chains)
    && Coherent(k)
    && FreeSlotsClean(k)
    && InTurn(k, chains, ticks)
    && IsSlot(k.pid) && !k.ready
  }

  // ---------- facts about chains ----------

  lemma TopIsLive(k: State, chains: seq<Chain>, t: nat)
    requires Shape(k) && Tree(k, chains) && t < TERMINALS && chains[t] != []
    ensures var p := Last(chains[t]);
      && IsSlot(p) && p in chains[t] && k.processState[p] == 1 && k.pcbs[p].pid == p
      && k.pcbs[p].parent == ParentIn(chains[t], |chains[t]| - 1)
  {
    assert chains[t][|chains[t]| - 1] in chains[t];
  }

  /** A new process on top of terminal `t`. */
  function Grown(chains: seq<Chain>, t: nat, p: int): (r: seq<Chain>)
    requires |chains| == TERMINALS && t < TERMINALS
    ensures |r| == TERMINALS
  {
    chains[t := chains[t] + [p]]
  }

  /** The process on top of terminal `t` gone. */
  function Shrunk(chains: seq<Chain>, t: nat): (r: seq<Chain>)
    requires |chains| == TERMINALS && t < TERMINALS && chains[t] != []
    ensures |r| == TERMINALS
  {
    chains[t := chains[t][..|chains[t]| - 1]]
  }

  lemma GrownOnChain(chains: seq<Chain>, t: nat, p: int)
    requires |chains| == TERMINALS && t < TERMINALS
    ensures forall q :: OnChain(Grown(chains, t, p), q) <==> OnChain(chains, q) || q == p
  {
    var r := Grown(chains, t, p);
    forall q ensures OnChain(r, q) <==> OnChain(chains, q) || q == p {
      if OnChain(chains, q) {
        var u :| 0 <= u < |chains| && q in chains[u];
        assert q in r[u];
      }
      if q == p {
        assert r[t][|chains[t]|] == p;
        assert q in r[t];
      }
      if OnChain(r, q) {
        var u :| 0 <= u < |r| && q in r[u];
        if u != t {
          assert q in chains[u];
        }
      }
    }
  }

  lemma GrownDisjoint(chains: seq<Chain>, t: nat, p: int)
    requires |chains| == TERMINALS && t < TERMINALS && Disjoint(chains) && !OnChain(chains, p)
    ensures Disjoint(Grown(chains, t, p))
  {
    var c := Grown(chains, t, p);
    forall u, v, q | 0 <= u < v < TERMINALS && q in c[u] ensures q !in c[v] {
      if q == p {
        assert u == t && p !in chains[v];
      } else {
        assert q in chains[u];
      }
    }
  }

  lemma GrownChain(pcbs: seq<Pcb>, pcbs': seq<Pcb>, c: Chain, p: int)
    requires |pcbs| == |pcbs'| == SLOTS && GoodChain(pcbs, c) && p !in c && IsSlot(p)
    requires forall q :: 0 <= q < SLOTS && q != p ==> pcbs'[q] == pcbs[q]
    requires pcbs'[p].pid == p && pcbs'[p].parent == Last(c) && (c != [] ==> pcbs'[p].esp0 == Top(Last(c)))
    ensures GoodChain(pcbs', c + [p])
  {
    KeptChain(pcbs, pcbs', c);
    GrownLinked(pcbs', c, p);
    GrownDistinct(c, p);
  }

  lemma GrownLinked(pcbs: seq<Pcb>, c: Chain, p: int)
    requires |pcbs| == SLOTS && GoodChain(pcbs, c) && IsSlot(p)
    requires pcbs[p].pid == p && pcbs[p].parent == Last(c) && (c != [] ==> pcbs[p].esp0 == Top(Last(c)))
    ensures Linked(pcbs, c + [p]) && StacksRemembered(pcbs, c + [p])
  {
    var d := c + [p];
    forall i | 0 <= i < |d|
      ensures IsSlot(d[i]) && pcbs[d[i]].pid == d[i] && pcbs[d[i]].parent == ParentIn(d, i)
      ensures i > 0 ==> pcbs[d[i]].esp0 == Top(d[i - 1])
    {
      if i < |c| {
        assert d[i] == c[i] && ParentIn(d, i) == ParentIn(c, i);
      } else {
        assert d[i] == p && ParentIn(d, i) == Last(c);
      }
    }
  }

  lemma GrownDistinct(c: Chain, p: int)
    requires Distinct(c) && p !in c
    ensures Distinct(c + [p])
  {
  }

  lemma KeptChain(pcbs: seq<Pcb>, pcbs': seq<Pcb>, c: Chain)
    requires |pcbs| == |pcbs'| == SLOTS && GoodChain(pcbs, c)
    requires forall q :: q in c ==>
      pcbs'[q].pid == pcbs[q].pid && pcbs'[q].parent == pcbs[q].parent && pcbs'[q].esp0 == pcbs[q].esp0
    ensures GoodChain(pcbs', c)
  {
    forall i | 0 <= i < |c| ensures c[i] in c {}
  }

  lemma StartedTree(k: State, chains: seq<Chain>, displayed: nat, context: Context)
    requires Shape(k) && Tree(k, chains) && CanExecute(k, displayed) && HasFreeSlot(k)
    requires var t := Target(k, displayed); chains[t] == [] || k.esp0 == Top(Last(chains[t]))
    ensures Tree(Started(k, displayed, context), Grown(chains, Target(k, displayed), NewPid(k)))
  {
    var r, t, p := Started(k, displayed, context), Target(k, displayed), NewPid(k);
    var c := Grown(chains, t, p);
    GrownOnChain(chains, t, p);
    GrownDisjoint(chains, t, p);
    forall u | 0 <= u < TERMINALS ensures GoodChain(r.pcbs, c[u]) {
      if u == t {
        assert p !in chains[t];
        GrownChain(k.pcbs, r.pcbs, chains[t], p);
      } else {
        assert p !in chains[u];
        KeptChain(k.pcbs, r.pcbs, chains[u]);
      }
    }
  }

  lemma ShrunkOnChain(chains: seq<Chain>, t: nat)
    requires |chains| == TERMINALS && t < TERMINALS && chains[t] != [] && Disjoint(chains) && Distinct(chains[t])
    ensures forall q :: OnChain(Shrunk(chains, t), q) <==> OnChain(chains, q) && q != Last(chains[t])
    ensures Disjoint(Shrunk(chains, t))
  {
    var r, c, p := Shrunk(chains, t), chains[t], Last(chains[t]);
    assert forall q :: q in c <==> q in r[t] || q == p;
    assert p !in r[t];
    forall q ensures OnChain(r, q) <==> OnChain(chains, q) && q != p {
      if OnChain(chains, q) && q != p {
        var u :| 0 <= u < |chains| && q in chains[u];
        assert q in r[u];
      }
      if OnChain(r, q) {
        var u :| 0 <= u < |r| && q in r[u];
        assert q in chains[u];
        assert u != t ==> p !in chains[u];
      }
    }
  }

  lemma ShrunkChain(pcbs: seq<Pcb>, pcbs': seq<Pcb>, c: Chain)
    requires |pcbs| == |pcbs'| == SLOTS && GoodChain(pcbs, c) && c != []
    requires forall q :: 0 <= q < SLOTS && q != Last(c) ==> pcbs'[q] == pcbs[q]
    ensures GoodChain(pcbs', c[..|c| - 1])
  {
    var d := c[..|c| - 1];
    forall i | 0 <= i < |d| ensures d[i] == c[i] && d[i] != Last(c) {}
  }

  lemma EndedTree(k: State, chains: seq<Chain>)
    requires Shape(k) && Tree(k, chains) && CanHalt(k) && chains[k.currentTerminal] != []
    ensures Tree(Ended(k), Shrunk(chains, k.currentTerminal))
  {
    var t := k.currentTerminal;
    var r, c := Ended(k), Shrunk(chains, t);
    var p := Last(chains[t]);
    TopIsLive(k, chains, t);
    ShrunkOnChain(chains, t);
    assert Last(c[t]) == ParentIn(chains[t], |chains[t]| - 1);
    forall u | 0 <= u < TERMINALS ensures GoodChain(r.pcbs, c[u]) {
      if u == t {
        ShrunkChain(k.pcbs, r.pcbs, chains[t]);
      } else {
        assert p !in chains[u];
        KeptChain(k.pcbs, r.pcbs, chains[u]);
      }
    }
  }

  // ---------- the same tree, by the parents ----------

  /** The process reached from `p` by going from a process to its parent `n` times. */
  function Ancestor(pcbs: seq<Pcb>, p: int, n: nat): int
  {
    if n == 0 then p
    else
      var q := Ancestor(pcbs, p, n - 1);
      if 0 <= q < |pcbs| then pcbs[q].parent else q
  }

  /** The process `n` generations above the one on top of terminal `t`, or -1. */
  function Above(k: State, t: nat, n: nat): int
    requires Shape(k) && t < TERMINALS
  {
    Ancestor(k.pcbs, k.terminalProcess[t], n)
  }

  lemma {:induction false} AncestorOnChain(pcbs: seq<Pcb>, c: Chain, n: nat)
    requires |pcbs| == SLOTS && Linked(pcbs, c)
    ensures Ancestor(pcbs, Last(c), n) == if n < |c| then c[|c| - 1 - n] else UNUSED
  {
    if n > 0 {
      AncestorOnChain(pcbs, c, n - 1);
      if n <= |c| {
        assert pcbs[c[|c| - n]].parent == ParentIn(c, |c| - n);
      }
    }
  }

  /** A slot is in use if and only if it is among the ancestors of some terminal's process. */
  lemma LiveByParents(k: State, chains: seq<Chain>, p: int)
    requires Shape(k) && Tree(k, chains) && 0 <= p < 7
    ensures k.processState[p] != 0 <==> exists t: nat, n: nat :: t < 3 && Above(k, t, n) == p
  {
    hide Ancestor, StacksRemembered, Disjoint, Distinct, Linked;
    if k.processState[p] != 0 {
      var t :| 0 <= t < TERMINALS && p in chains[t];
      var i :| 0 <= i < |chains[t]| && chains[t][i] == p;
      AboveOnChain(k, chains, t, |chains[t]| - 1 - i);
    }
    if t: nat, n: nat :| t < 3 && Above(k, t, n) == p {
      AboveOnChain(k, chains, t, n);
      assert p in chains[t];
    }
  }

  lemma AboveOnChain(k: State, chains: seq<Chain>, t: nat, n: nat)
    requires Shape(k) && Tree(k, chains) && t < TERMINALS
    ensures Above(k, t, n) == if n < |chains[t]| then chains[t][|chains[t]| - 1 - n] else UNUSED
  {
    hide Ancestor, StacksRemembered, Disjoint, Distinct, Linked, LiveExactly;
    AncestorOnChain(k.pcbs, chains[t], n);
  }

  /** And then in one way only: terminals share no process, and no process is its own ancestor. */
  lemma OneWayOnly(k: State, chains: seq<Chain>, t: nat, n: nat, t': nat, n': nat)
    requires Shape(k) && Tree(k, chains) && t < 3 && t' < 3
    requires Above(k, t, n) == Above(k, t', n') != -1
    ensures t == t' && n == n'
  {
    AboveOnChain(k, chains, t, n);
    AboveOnChain(k, chains, t', n');
    var p := Above(k, t, n);
    assert p in chains[t] && p in chains[t'];
  }

  /** Every process has ancestors up to a base shell, at most six, each in a slot that bears its own number. */
  lemma AncestorsEnd(k: State, chains: seq<Chain>, t: nat)
    requires Shape(k) && Tree(k, chains) && t < 3
    ensures Above(k, t, 7) == -1
    ensures forall n: nat :: Above(k, t, n) != -1 ==>
      0 <= Above(k, t, n) < 7 && k.pcbs[Above(k, t, n)].pid == Above(k, t, n)
    ensures forall n: nat :: Above(k, t, n + 1) != -1 ==>
      k.pcbs[Above(k, t, n)].esp0 == Top(Above(k, t, n + 1))
  {
    var c := chains[t];
    ChainLength(c);
    forall n: nat
      ensures Above(k, t, n) == if n < |c| then c[|c| - 1 - n] else -1
    {
      AboveOnChain(k, chains, t, n);
    }
  }

  lemma ChainLength(c: Chain)
    requires Distinct(c) && forall i :: 0 <= i < |c| ==> 0 <= c[i] < SLOTS
    ensures |c| <= SLOTS
  {
    ElementCount(c);
    hide Distinct;
    var all := {0, 1, 2, 3, 4, 5, 6};
    assert Elements(c) <= all by {
      forall p | p in c ensures p in all {}
    }
    SmallerSet(Elements(c), all);
  }

  lemma SmallerSet(a: set<int>, b: set<int>)
    requires a <= b
    ensures |a| <= |b|
  {
    assert b == a + (b - a);
  }

  function Elements(c: Chain): set<int>
  {
    set p | p in c
  }

  lemma {:induction false} ElementCount(c: Chain)
    requires Distinct(c)
    ensures |Elements(c)| == |c|
  {
    if c != [] {
      var n := |c| - 1;
      ElementCount(c[..n]);
      assert c == c[..n] + [c[n]];
      assert Elements(c) == Elements(c[..n]) + {c[n]};
    }
  }

  // ---------- the steps keep the invariant ----------

  /** The chains after a step. */
  ghost function NextChains(k: State, chains: seq<Chain>, ticks: nat, e: Event): (r: seq<Chain>)
    requires Inv(k, chains, ticks) && Enabled(k, e)
  {
    match e
    case Tick(_) => if ticks < TERMINALS then Grown(chains, ticks, NewPid(k)) else chains
    case Execute(_, _) => if k.pid == LAST_PID then chains else Grown(chains, k.currentTerminal, NewPid(k))
    case Halt(_, _) =>
      TopIsLive(k, chains, k.currentTerminal);
      var c := Shrunk(chains, k.currentTerminal);
      if Ended(k).pid == UNUSED then Grown(c, k.currentTerminal, NewPid(Ended(k))) else c
    case _ => chains
  }

  lemma NextInTurn(k: State, ticks: nat)
    requires ticks >= 1 && k.currentTerminal == k.nextTerminal == (ticks - 1) % TERMINALS
    ensures NextTerminal(k) == ticks % TERMINALS
  {
  }

  lemma EmptyIsUnused(k: State, chains: seq<Chain>, t: nat)
    requires Shape(k) && Tree(k, chains) && t < TERMINALS
    ensures k.terminalProcess[t] == UNUSED <==> chains[t] == []
  {
    if chains[t] != [] {
      TopIsLive(k, chains, t);
    }
  }

  /** The next tick turns to the next terminal, and starts a shell exactly if it is one of the first three. */
  lemma TicksInTurn(k: State, chains: seq<Chain>, ticks: nat)
    requires Inv(k, chains, ticks)
    ensures NextTerminal(k) == ticks % TERMINALS
    ensures k.terminalProcess[ticks % TERMINALS] == UNUSED <==> ticks < TERMINALS
  {
    NextInTurn(k, ticks);
    EmptyIsUnused(k, chains, ticks % TERMINALS);
    LateTerminals(ticks);
  }

  lemma LateTerminals(ticks: nat)
    ensures ticks % TERMINALS >= ticks <==> ticks < TERMINALS
  {
  }

  lemma SavedKeepsTree(k: State, chains: seq<Chain>, p: int, context: Context)
    requires Shape(k) && Tree(k, chains) && IsSlot(p)
    ensures var r := k.(pcbs := k.pcbs[p := k.pcbs[p].(saved := context)]);
      Shape(r) && Tree(r, chains) && (FreeSlotsClean(k) ==> FreeSlotsClean(r))
  {
    var r := k.(pcbs := k.pcbs[p := k.pcbs[p].(saved := context)]);
    forall t | 0 <= t < TERMINALS ensures GoodChain(r.pcbs, chains[t]) {
      KeptChain(k.pcbs, r.pcbs, chains[t]);
    }
  }

  lemma SameTree(k: State, r: State, chains: seq<Chain>)
    requires Shape(k) && Shape(r) && Tree(k, chains)
    requires r.terminalProcess == k.terminalProcess && r.processState == k.processState && r.pcbs == k.pcbs
    ensures Tree(r, chains)
  {
  }

  lemma StartedClean(k: State, chains: seq<Chain>, displayed: nat, context: Context)
    requires Shape(k) && FreeSlotsClean(k) && CanExecute(k, displayed) && HasFreeSlot(k)
    ensures FreeSlotsClean(Started(k, displayed, context))
  {
  }

  lemma TickKeeps(k: State, chains: seq<Chain>, ticks: nat, context: Context)
    requires Inv(k, chains, ticks) && Enabled(k, Tick(context))
    ensures Inv(Ticked(k, context), NextChains(k, chains, ticks, Tick(context)), ticks + 1)
  {
    hide GoodChain, Disjoint, LiveExactly;
    TicksInTurn(k, chains, ticks);
    SavedKeepsTree(k, chains, Outgoing(k), context);
    var s, n := SwitchedOut(k, context), NextTerminal(k);
    SameTree(k.(pcbs := s.pcbs), s, chains);
    if StartsShell(k) {
      var c := s.(ready := true, currentTerminal := n);
      SameTree(s, c, chains);
      StartedTree(c, chains, 0, context);
      StartedClean(c, chains, 0, context);
    } else {
      TopIsLive(s, chains, n);
      SameTree(s, Ticked(k, context), chains);
    }
  }

  lemma ExecuteKeeps(k: State, chains: seq<Chain>, ticks: nat, displayed: nat, context: Context)
    requires Inv(k, chains, ticks) && Enabled(k, Execute(displayed, context))
    ensures Inv(Executed(k, displayed, context), NextChains(k, chains, ticks, Execute(displayed, context)), ticks)
  {
    if k.pid != LAST_PID {
      StartedTree(k, chains, displayed, context);
      StartedClean(k, chains, displayed, context);
    }
  }

  lemma EndedClean(k: State, chains: seq<Chain>)
    requires Shape(k) && Tree(k, chains) && FreeSlotsClean(k) && CanHalt(k) && chains[k.currentTerminal] != []
    ensures FreeSlotsClean(Ended(k))
  {
    TopIsLive(k, chains, k.currentTerminal);
  }

  lemma HaltKeeps(k: State, chains: seq<Chain>, ticks: nat, displayed: nat, context: Context)
    requires Inv(k, chains, ticks) && Enabled(k, Halt(displayed, context))
    ensures Inv(Halted(k, displayed, context), NextChains(k, chains, ticks, Halt(displayed, context)), ticks)
  {
    var t := k.currentTerminal;
    TopIsLive(k, chains, t);
    EndedTree(k, chains);
    EndedClean(k, chains);
    var r, c := Ended(k), Shrunk(chains, t);
    if r.pid == UNUSED {
      assert |chains[t]| == 1;
      StartedTree(r, c, displayed, context);
      StartedClean(r, c, displayed, context);
    } else {
      assert |chains[t]| > 1;
      assert k.pcbs[Last(chains[t])].esp0 == Top(chains[t][|chains[t]| - 2]);
      SameTree(r, Halted(k, displayed, context), c);
    }
  }

  lemma SetFileKeeps(k: State, chains: seq<Chain>, ticks: nat, fd: nat, f: File)
    requires Inv(k, chains, ticks) && fd < FILES
    ensures Runs(k) && Inv(SetFile(k, fd, f), chains, ticks)
  {
    TopIsLive(k, chains, k.currentTerminal);
    var r := SetFile(k, fd, f);
    forall t | 0 <= t < TERMINALS ensures GoodChain(r.pcbs, chains[t]) {
      KeptChain(k.pcbs, r.pcbs, chains[t]);
    }
  }

  /** Every step keeps the invariant; ticks, and only ticks, advance the turn. */
  lemma StepKeeps(k: State, chains: seq<Chain>, ticks: nat, e: Event)
    requires Inv(k, chains, ticks) && Enabled(k, e)
    ensures Inv(Step(k, e), NextChains(k, chains, ticks, e), TicksAfter(ticks, e))
  {
    match e
    case Tick(context) => TickKeeps(k, chains, ticks, context);
    case Execute(displayed, context) => ExecuteKeeps(k, chains, ticks, displayed, context);
    case Halt(displayed, context) => HaltKeeps(k, chains, ticks, displayed, context);
    case Open(entry) =>
      var fd := OpenResult(k, entry);
      if fd != -1 {
        SetFileKeeps(k, chains, ticks, fd, NewFile(entry));
      }
    case Close(fd) =>
      if CanClose(k, fd) {
        SetFileKeeps(k, chains, ticks, fd,
          k.pcbs[k.terminalProcess[k.currentTerminal]].files[fd].(operations := NoFile, position := 0, flags := 0));
      }
  }

  lemma {:induction false} RunReaches(k: State, chains: seq<Chain>, ticks: nat, events: seq<Event>)
    returns (k': State, chains': seq<Chain>, ticks': nat)
    requires Inv(k, chains, ticks) && AllEnabled(k, events)
    ensures k' == Run(k, events) && ticks' == ticks + TickCount(events)
    ensures Inv(k', chains', ticks')
    decreases |events|
  {
    if events == [] {
      return k, chains, ticks;
    }
    var e := events[0];
    StepKeeps(k, chains, ticks, e);
    k', chains', ticks' := RunReaches(Step(k, e), NextChains(k, chains, ticks, e), TicksAfter(ticks, e), events[1..]);
  }

  const NO_CHAINS: seq<Chain> := [[], [], []]

  /** The first shell is about to start: no process, no terminal in use. */
  function BeforeShell(pcbs: seq<Pcb>, page: int, context: Context): State
    requires |pcbs| == SLOTS
  {
    Boot(pcbs[0 := pcbs[0].(saved := context)], page).(currentTerminal := 0)
  }

  lemma NoTree(pcbs: seq<Pcb>, page: int, context: Context)
    requires |pcbs| == SLOTS && forall p :: 0 <= p < SLOTS ==> |pcbs[p].files| == FILES
    ensures var s := BeforeShell(pcbs, page, context);
      Shape(s) && Tree(s, NO_CHAINS) && HasFreeSlot(s) && NewPid(s) == 0
  {
    var s := BeforeShell(pcbs, page, context);
    assert s.processState[0] == 0;
    assert forall p :: !OnChain(NO_CHAINS, p);
  }

  lemma FirstIsStart(pcbs: seq<Pcb>, page: int, context: Context)
    requires |pcbs| == SLOTS && forall p :: 0 <= p < SLOTS ==> |pcbs[p].files| == FILES
    ensures CanTick(Boot(pcbs, page)) && CanExecute(BeforeShell(pcbs, page, context), 0)
    ensures Ticked(Boot(pcbs, page), context) == Started(BeforeShell(pcbs, page, context), 0, context)
  {
    assert Boot(pcbs, page).processState[0] == 0;
    assert SwitchedOut(Boot(pcbs, page), context).(ready := true, currentTerminal := 0) ==
      BeforeShell(pcbs, page, context);
  }

  /** The first tick after the scheduler has been initialised starts the shell of terminal 0. */
  lemma FirstTick(pcbs: seq<Pcb>, page: int, context: Context)
    requires |pcbs| == SLOTS && forall p :: 0 <= p < SLOTS ==> |pcbs[p].files| == FILES && Clean(pcbs[p].files)
    ensures CanTick(Boot(pcbs, page)) && Inv(Ticked(Boot(pcbs, page), context), [[0], [], []], 1)
    ensures Ticked(Boot(pcbs, page), context).pid == 0
  {
    var s := BeforeShell(pcbs, page, context);
    NoTree(pcbs, page, context);
    FirstIsStart(pcbs, page, context);
    StartedTree(s, NO_CHAINS, 0, context);
    StartedClean(s, NO_CHAINS, 0, context);
    hide Tree, FreeSlotsClean, Ticked;
    assert [] + [0] == [0] && Grown(NO_CHAINS, 0, 0) == [[0], [], []];
  }

  /** Some chains make the state satisfy the invariant. */
  ghost predicate Sound(k: State, ticks: nat)
  {
    exists chains: seq<Chain> :: Inv(k, chains, ticks)
  }

  lemma SoundState(k: State, chains: seq<Chain>, ticks: nat)
    requires Inv(k, chains, ticks)
    ensures Sound(k, ticks) && Coherent(k) && k.currentTerminal == (ticks - 1) % TERMINALS
  {
  }

  lemma RunSound(k: State, chains: seq<Chain>, ticks: nat, events: seq<Event>, r: State, n: nat)
    requires Inv(k, chains, ticks) && AllEnabled(k, events) && r == Run(k, events) && n == ticks + TickCount(events)
    ensures Sound(r, n) && Coherent(r) && r.currentTerminal == (n - 1) % TERMINALS
  {
    var k', chains', ticks' := RunReaches(k, chains, ticks, events);
    assert k' == r && ticks' == n;
    SoundState(r, chains', n);
  }

  /** The state after the first tick that follows the initialisation of the scheduler. */
  ghost predicate AfterFirstTick(k: State)
  {
    exists pcbs: seq<Pcb>, page: int, context: Context :: FirstState(k, pcbs, page, context)
  }

  ghost predicate FirstState(k: State, pcbs: seq<Pcb>, page: int, context: Context)
  {
    && |pcbs| == SLOTS && (forall p :: 0 <= p < SLOTS ==> |pcbs[p].files| == FILES && Clean(pcbs[p].files))
    && CanTick(Boot(pcbs, page)) && k == Ticked(Boot(pcbs, page), context)
  }

  /**
   Every run from the initialisation of the scheduler, however ticks and calls are interleaved,
   keeps the process tree, the remembered stacks, the clean free slots and the agreement of user
   page, task state segment and running terminal; after `n` ticks terminal (n - 1) % 3 runs.
   */
  lemma EveryRunKeeps(k: State, events: seq<Event>, r: State)
    requires AfterFirstTick(k) && AllEnabled(k, events) && r == Run(k, events)
    ensures Sound(r, 1 + TickCount(events)) && Coherent(r) && r.currentTerminal == TickCount(events) % TERMINALS
  {
    var pcbs: seq<Pcb>, page: int, context: Context :| FirstState(k, pcbs, page, context);
    FirstTick(pcbs, page, context);
    RunSound(k, [[0], [], []], 1, events, r, 1 + TickCount(events));
  }

  /**
   In every state of a run a slot is in use if and only if going from parent to parent leads to it from
   the process on top of a terminal, and then it does so from one terminal and on one way only.
   */
  lemma AncestorsInRuns(k: State, events: seq<Event>, r: State, p: int)
    requires AfterFirstTick(k) && AllEnabled(k, events) && r == Run(k, events) && 0 <= p < 7
    ensures Shape(r)
    ensures r.processState[p] != 0 <==> exists t: nat, n: nat :: t < 3 && Above(r, t, n) == p
    ensures forall t: nat, n: nat, t': nat, n': nat :: t < 3 && t' < 3 && Above(r, t, n) == p == Above(r, t', n') ==>
      t == t' && n == n'
    ensures forall t: nat :: t < 3 ==> Above(r, t, 7) == -1
  {
    EveryRunKeeps(k, events, r);
    var chains: seq<Chain> :| Inv(r, chains, 1 + TickCount(events));
    hide Tree, Coherent, FreeSlotsClean, InTurn, Ancestor;
    LiveByParents(r, chains, p);
    forall t: nat, n: nat, t': nat, n': nat | t < 3 && t' < 3 && Above(r, t, n) == p == Above(r, t', n')
      ensures t == t' && n == n'
    {
      OneWayOnly(r, chains, t, n, t', n');
    }
    forall t: nat | t < 3 ensures Above(r, t, 7) == -1 {
      AncestorsEnd(r, chains, t);
    }
  }
}
