/** What the invariant means for single processes. */
module Processes {
  import opened Common
  import opened Kernel
  import opened Chains

  // ---------- a process and its parent ----------

  /** `execute` followed at once by the halt of the new process leaves everything but its slot as it was. */
  lemma ExecuteThenHalt(k: State, chains: seq<Chain>, ticks: nat, context: Context, displayed: nat, other: Context)
    requires Inv(k, chains, ticks) && k.pid != LAST_PID
    requires Enabled(k, Execute(k.currentTerminal, context))
    ensures var k1 := Executed(k, k.currentTerminal, context);
      && CanHalt(k1) && Ended(k1).pid != UNUSED && Continues(k1) == context
      && var r := Halted(k1, displayed, other);
         && r.processState == k.processState && r.terminalProcess == k.terminalProcess
         && r.currentTerminal == k.currentTerminal && r.esp0 == k.esp0 && r.page == k.page
         && r.pid == k.terminalProcess[k.currentTerminal]
         && forall p :: 0 <= p < SLOTS && p != NewPid(k) ==> r.pcbs[p] == k.pcbs[p]
  {
    TopIsLive(k, chains, k.currentTerminal);
    var k1 := Executed(k, k.currentTerminal, context);
    assert Ended(k1).processState == k.processState;
    assert Ended(k1).terminalProcess == k.terminalProcess;
  }

  /** Slot `c` is in use in every state of a run. */
  ghost predicate StaysLive(k: State, events: seq<Event>, c: int)
    requires AllEnabled(k, events) && Shape(k) && IsSlot(c)
    decreases |events|
  {
    && k.processState[c] == 1
    && (events == [] || (Shape(Step(k, events[0])) && StaysLive(Step(k, events[0]), events[1..], c)))
  }

  /** What a process remembers of its parent. */
  ghost predicate SameOrigin(a: Pcb, b: Pcb)
  {
    a.pid == b.pid && a.parent == b.parent && a.esp0 == b.esp0 && a.caller == b.caller
  }

  lemma OriginKeptByTick(k: State, chains: seq<Chain>, ticks: nat, context: Context, c: int)
    requires Inv(k, chains, ticks) && Enabled(k, Tick(context)) && IsSlot(c) && k.processState[c] == 1
    ensures Shape(Ticked(k, context)) && SameOrigin(Ticked(k, context).pcbs[c], k.pcbs[c])
  {
  }

  lemma OriginKeptByExecute(k: State, displayed: nat, context: Context, c: int)
    requires Enabled(k, Execute(displayed, context)) && IsSlot(c) && k.processState[c] == 1
    ensures Shape(Executed(k, displayed, context)) && SameOrigin(Executed(k, displayed, context).pcbs[c], k.pcbs[c])
  {
    if k.pid != LAST_PID {
      assert NewPid(k) != c;
    }
  }

  lemma OriginKeptByHalt(k: State, chains: seq<Chain>, ticks: nat, displayed: nat, context: Context, c: int)
    requires Inv(k, chains, ticks) && Enabled(k, Halt(displayed, context)) && IsSlot(c)
    requires k.processState[c] == 1 && k.pcbs[c].parent != UNUSED
    requires Shape(Halted(k, displayed, context)) && Halted(k, displayed, context).processState[c] == 1
    ensures SameOrigin(Halted(k, displayed, context).pcbs[c], k.pcbs[c])
  {
    TopIsLive(k, chains, k.currentTerminal);
    var q := Last(chains[k.currentTerminal]);
    if c != q {
      assert Ended(k).processState[c] == 1 && Ended(k).pcbs[c] == k.pcbs[c];
    }
  }

  /** A step during which a process that is no base shell stays alive keeps what it remembers of its parent. */
  lemma OriginKept(k: State, chains: seq<Chain>, ticks: nat, e: Event, c: int)
    requires Inv(k, chains, ticks) && Enabled(k, e) && IsSlot(c)
    requires k.processState[c] == 1 && k.pcbs[c].parent != UNUSED
    requires Shape(Step(k, e)) && Step(k, e).processState[c] == 1
    ensures SameOrigin(Step(k, e).pcbs[c], k.pcbs[c])
  {
    match e
    case Tick(context) => OriginKeptByTick(k, chains, ticks, context, c);
    case Halt(displayed, context) => OriginKeptByHalt(k, chains, ticks, displayed, context, c);
    case Execute(displayed, context) => OriginKeptByExecute(k, displayed, context, c);
    case Open(_) =>
    case Close(_) =>
  }

  lemma {:induction false} OriginKeptInRun(k: State, chains: seq<Chain>, ticks: nat, events: seq<Event>, c: int,
        r: State)
    requires Inv(k, chains, ticks) && AllEnabled(k, events) && IsSlot(c) && r == Run(k, events)
    requires StaysLive(k, events, c) && k.pcbs[c].parent != UNUSED
    ensures Shape(r) && SameOrigin(r.pcbs[c], k.pcbs[c])
    decreases |events|
  {
    if events != [] {
      var e := events[0];
      StepKeeps(k, chains, ticks, e);
      OriginKept(k, chains, ticks, e, c);
      OriginKeptInRun(Step(k, e), NextChains(k, chains, ticks, e), TicksAfter(ticks, e), events[1..], c, r);
    }
  }

  /**
   However many ticks and calls come between, the halt of a process gives its parent back the
   kernel stack top, the user page and the registers that it had when it called `execute`.
   */
  lemma ParentGoesOn(k: State, chains: seq<Chain>, ticks: nat, context: Context, k1: State, events: seq<Event>,
        r: State)
    requires Inv(k, chains, ticks) && k.pid != LAST_PID && Enabled(k, Execute(k.currentTerminal, context))
    requires k1 == Executed(k, k.currentTerminal, context) && AllEnabled(k1, events) && r == Run(k1, events)
    requires Shape(k1) && IsSlot(NewPid(k)) && StaysLive(k1, events, NewPid(k))
    requires r.currentTerminal == k.currentTerminal && Shape(r) && r.terminalProcess[r.currentTerminal] == NewPid(k)
    ensures CanHalt(r) && Continues(r) == context
    ensures Ended(r).terminalProcess[r.currentTerminal] == k.terminalProcess[k.currentTerminal]
    ensures Ended(r).pid != UNUSED && Ended(r).esp0 == k.esp0
    ensures forall displayed: nat, other: Context :: Halted(r, displayed, other).page == k.page
  {
    var c := NewPid(k);
    TopIsLive(k, chains, k.currentTerminal);
    ExecuteKeeps(k, chains, ticks, k.currentTerminal, context);
    OriginKeptInRun(k1, NextChains(k, chains, ticks, Execute(k.currentTerminal, context)), ticks, events, c, r);
  }

  // ---------- suspended processes ----------

  /** Terminal `t` does not run; its top process `p` has put away the registers `context`. */
  ghost predicate Suspended(k: State, t: nat, p: int, context: Context)
  {
    && Shape(k) && t < TERMINALS && IsSlot(p)
    && k.currentTerminal != t && k.terminalProcess[t] == p && k.pcbs[p].saved == context
  }

  lemma TickLeaves(k: State, chains: seq<Chain>, ticks: nat, context: Context)
    requires Inv(k, chains, ticks) && Enabled(k, Tick(context))
    ensures NextTerminal(k) != k.currentTerminal && Ticked(k, context).currentTerminal == NextTerminal(k)
    ensures Outgoing(k) == k.terminalProcess[k.currentTerminal]
  {
    hide Tree, FreeSlotsClean;
    TicksInTurn(k, chains, ticks);
  }

  /** Only the running process puts registers away, and only a new process takes a slot, a free one. */
  lemma SavedByTick(k: State, chains: seq<Chain>, ticks: nat, context: Context, t: nat, p: int)
    requires Inv(k, chains, ticks) && Enabled(k, Tick(context)) && t < TERMINALS && IsSlot(p)
    requires k.terminalProcess[t] == p && NextTerminal(k) != t
    ensures Shape(Ticked(k, context)) && Ticked(k, context).terminalProcess[t] == p
    ensures Ticked(k, context).pcbs[p].saved == if t == k.currentTerminal then context else k.pcbs[p].saved
  {
    TickLeaves(k, chains, ticks, context);
    TopIsLive(k, chains, t);
    TopIsLive(k, chains, k.currentTerminal);
    assert t != k.currentTerminal ==> p != k.terminalProcess[k.currentTerminal];
    assert k.processState[p] == 1;
  }

  lemma TickSuspends(k: State, chains: seq<Chain>, ticks: nat, context: Context)
    requires Inv(k, chains, ticks) && Enabled(k, Tick(context))
    ensures Suspended(Ticked(k, context), k.currentTerminal, k.terminalProcess[k.currentTerminal], context)
  {
    TopIsLive(k, chains, k.currentTerminal);
    TickLeaves(k, chains, ticks, context);
    SavedByTick(k, chains, ticks, context, k.currentTerminal, k.terminalProcess[k.currentTerminal]);
  }

  lemma HaltLeavesSuspended(k: State, chains: seq<Chain>, ticks: nat, displayed: nat, other: Context, t: nat, p: int,
        context: Context)
    requires Inv(k, chains, ticks) && Enabled(k, Halt(displayed, other)) && Suspended(k, t, p, context)
    ensures Suspended(Halted(k, displayed, other), t, p, context)
  {
    TopIsLive(k, chains, t);
    TopIsLive(k, chains, k.currentTerminal);
    var q := Last(chains[k.currentTerminal]);
    assert p != q;
    assert Ended(k).processState[p] == 1 && Ended(k).pcbs[p] == k.pcbs[p];
  }

  lemma StaysSuspended(k: State, chains: seq<Chain>, ticks: nat, e: Event, t: nat, p: int, context: Context)
    requires Inv(k, chains, ticks) && Enabled(k, e) && Suspended(k, t, p, context)
    requires Step(k, e).currentTerminal != t
    ensures Suspended(Step(k, e), t, p, context)
  {
    TopIsLive(k, chains, t);
    match e
    case Tick(other) =>
      TickLeaves(k, chains, ticks, other);
      SavedByTick(k, chains, ticks, other, t, p);
    case Halt(displayed, other) => HaltLeavesSuspended(k, chains, ticks, displayed, other, t, p, context);
    case Execute(displayed, other) => assert k.processState[p] == 1;
    case Open(_) =>
    case Close(_) =>
  }

  /** Terminal `t` is never the running one after a step of the run. */
  ghost predicate NeverRuns(k: State, events: seq<Event>, t: nat)
    requires AllEnabled(k, events)
    decreases |events|
  {
    events == [] || (Step(k, events[0]).currentTerminal != t && NeverRuns(Step(k, events[0]), events[1..], t))
  }

  lemma {:induction false} StaysSuspendedInRun(k: State, chains: seq<Chain>, ticks: nat, events: seq<Event>, t: nat,
        p: int, context: Context, r: State)
    returns (chains': seq<Chain>, ticks': nat)
    requires Inv(k, chains, ticks) && AllEnabled(k, events) && r == Run(k, events)
    requires Suspended(k, t, p, context) && NeverRuns(k, events, t)
    ensures Suspended(r, t, p, context) && Inv(r, chains', ticks')
    decreases |events|
  {
    if events == [] {
      chains', ticks' := chains, ticks;
    } else {
      var e := events[0];
      StepKeeps(k, chains, ticks, e);
      StaysSuspended(k, chains, ticks, e, t, p, context);
      chains', ticks' := StaysSuspendedInRun(Step(k, e), NextChains(k, chains, ticks, e), TicksAfter(ticks, e),
        events[1..], t, p, context, r);
    }
  }

  lemma SuspendedResumes(k: State, chains: seq<Chain>, ticks: nat, t: nat, p: int, context: Context, other: Context)
    requires Inv(k, chains, ticks) && CanTick(k) && NextTerminal(k) == t && Suspended(k, t, p, context)
    ensures Resumed(k, other) == context && Incoming(k) == p
    ensures var r := Ticked(k, other);
      r.currentTerminal == t && r.terminalProcess == k.terminalProcess && r.esp0 == Top(p) && r.page == PageOf(p)
  {
    TopIsLive(k, chains, t);
    TopIsLive(k, chains, k.currentTerminal);
    assert Outgoing(k) == Last(chains[k.currentTerminal]) != p;
  }

  /**
   Once a process has been switched out (`TickSuspends`), the tick that turns back to its terminal
   resumes it with exactly the registers that it had then, its kernel stack and its user page,
   whatever the other terminals did in between.
   */
  lemma ResumesExactly(k: State, chains: seq<Chain>, ticks: nat, events: seq<Event>, t: nat, p: int, context: Context,
        r: State, other: Context)
    requires Inv(k, chains, ticks) && AllEnabled(k, events) && r == Run(k, events)
    requires Suspended(k, t, p, context) && NeverRuns(k, events, t)
    requires CanTick(r) && NextTerminal(r) == t
    ensures Resumed(r, other) == context && Incoming(r) == p
    ensures var q := Ticked(r, other); q.currentTerminal == t && q.esp0 == Top(p) && q.page == PageOf(p)
  {
    var c', n' := StaysSuspendedInRun(k, chains, ticks, events, t, p, context, r);
    SuspendedResumes(r, c', n', t, p, context, other);
  }

  // ---------- descriptors ----------

  /** `halt` closes descriptors 2 to 7 by clearing their flags, and leaves everything else in the control blocks. */
  lemma FilesAfterHalt(k: State, fd: nat)
    requires CanHalt(k) && fd < 8
    ensures var p := k.terminalProcess[k.currentTerminal];
      var f, r := k.pcbs[p].files[fd], Ended(k).pcbs;
      && r[p].files[fd] == (if fd < 2 then f else File(f.operations, f.inode, f.position, 0))
      && r == k.pcbs[p := k.pcbs[p].(files := r[p].files)]
  {
  }

  /** A new process starts with descriptors 0 and 1 open and no other, though only these are written. */
  lemma NewProcessFiles(k: State, displayed: nat, context: Context)
    requires Shape(k) && FreeSlotsClean(k) && CanExecute(k, displayed) && HasFreeSlot(k)
    ensures var files := Started(k, displayed, context).pcbs[NewPid(k)].files;
      |files| == FILES && forall fd :: 0 <= fd < FILES ==> (files[fd].flags != 0 <==> fd < MIN_FD)
    ensures var files := Started(k, displayed, context).pcbs[NewPid(k)].files;
      files[0] == files[1] == File(Terminal, 0, 0, 1)
  {
    assert k.processState[NewPid(k)] == 0;
  }

  /** The step starts a process: an `execute`, the shell of a terminal, or one in place of a base shell that halts. */
  ghost predicate Starts(k: State, chains: seq<Chain>, ticks: nat, e: Event)
    requires Inv(k, chains, ticks)
  {
    match e
    case Tick(_) => ticks < TERMINALS
    case Execute(_, _) => k.pid != LAST_PID
    case Halt(_, _) => |chains[k.currentTerminal]| == 1
    case _ => false
  }

  /** So does every process that a run starts, by whatever step. */
  lemma StartsWithTwoFiles(k: State, chains: seq<Chain>, ticks: nat, e: Event)
    requires Inv(k, chains, ticks) && Enabled(k, e) && Starts(k, chains, ticks, e)
    ensures var r := Step(k, e); Shape(r) && IsSlot(r.pid) && r.pid == r.terminalProcess[r.currentTerminal]
    ensures var r := Step(k, e); var files := r.pcbs[r.pid].files;
      |files| == FILES && forall fd :: 0 <= fd < FILES ==> (files[fd].flags != 0 <==> fd < MIN_FD)
  {
    match e
    case Execute(displayed, context) => NewProcessFiles(k, displayed, context);
    case Tick(context) => ShellFiles(k, chains, ticks, context);
    case Halt(displayed, context) =>
      TopIsLive(k, chains, k.currentTerminal);
      EndedClean(k, chains);
      NewProcessFiles(Ended(k), displayed, context);
  }

  lemma ShellFiles(k: State, chains: seq<Chain>, ticks: nat, context: Context)
    requires Inv(k, chains, ticks) && Enabled(k, Tick(context)) && ticks < TERMINALS
    ensures var r := Ticked(k, context); Shape(r) && IsSlot(r.pid) && r.pid == r.terminalProcess[r.currentTerminal]
    ensures var r := Ticked(k, context); var files := r.pcbs[r.pid].files;
      |files| == FILES && forall fd :: 0 <= fd < FILES ==> (files[fd].flags != 0 <==> fd < MIN_FD)
  {
    TicksInTurn(k, chains, ticks);
    SavedKeepsTree(k, chains, Outgoing(k), context);
    var c := SwitchedOut(k, context).(ready := true, currentTerminal := NextTerminal(k));
    hide Tree;
    NewProcessFiles(c, 0, context);
  }

  /** The global variable `pid` names the process that runs. */
  ghost predicate PidIsRunning(k: State)
  {
    Runs(k) && k.pid == k.terminalProcess[k.currentTerminal]
  }

  /** A step keeps this if and only if it is no tick after the third, which changes the process but not `pid`. */
  lemma PidKeptExactly(k: State, chains: seq<Chain>, ticks: nat, e: Event)
    requires Inv(k, chains, ticks) && Enabled(k, e) && PidIsRunning(k)
    ensures PidIsRunning(Step(k, e)) <==> !(e.Tick? && ticks >= TERMINALS)
  {
    match e
    case Tick(context) => PidAfterTick(k, chains, ticks, context);
    case Halt(displayed, context) => PidAfterHalt(k, chains, ticks, displayed, context);
    case Execute(_, _) =>
    case Open(_) =>
    case Close(_) =>
  }

  lemma PidAfterHalt(k: State, chains: seq<Chain>, ticks: nat, displayed: nat, context: Context)
    requires Inv(k, chains, ticks) && Enabled(k, Halt(displayed, context))
    ensures PidIsRunning(Halted(k, displayed, context))
  {
    HaltKeeps(k, chains, ticks, displayed, context);
    hide Tree, FreeSlotsClean;
  }

  lemma PidAfterTick(k: State, chains: seq<Chain>, ticks: nat, context: Context)
    requires Inv(k, chains, ticks) && Enabled(k, Tick(context)) && PidIsRunning(k)
    ensures PidIsRunning(Ticked(k, context)) <==> ticks < TERMINALS
  {
    TicksInTurn(k, chains, ticks);
    TickLeaves(k, chains, ticks, context);
    if ticks < TERMINALS {
      ShellFiles(k, chains, ticks, context);
    } else {
      TopIsLive(k, chains, k.currentTerminal);
      TopIsLive(k, chains, NextTerminal(k));
    }
  }

  /** `open` returns the lowest free descriptor, and changes that one entry of the running process only. */
  lemma OpenIsLowest(k: State, e: Entry)
    requires Runs(k)
    ensures var p, fd, r := k.terminalProcess[k.currentTerminal], OpenResult(k, e), Opened(k, e);
      if fd == -1 then r == k
      else
        && MIN_FD <= fd < FILES
        && k.pcbs[p].files[fd].flags == 0 && (forall j :: MIN_FD <= j < fd ==> k.pcbs[p].files[j].flags != 0)
        && r.pcbs[p].files == k.pcbs[p].files[fd := NewFile(e)] && NewFile(e).flags != 0
        && (forall q :: 0 <= q < SLOTS && q != p ==> r.pcbs[q] == k.pcbs[q])
  {
  }

  /** Whether `open` succeeds, and what the new entry is, by the type of the file. */
  lemma OpenExactly(k: State, e: Entry)
    requires Runs(k)
    ensures var files := k.pcbs[k.terminalProcess[k.currentTerminal]].files;
      OpenResult(k, e) != -1 <==>
        e.Found? && e.fileType <= 2 && exists fd :: 2 <= fd < 8 && files[fd].flags == 0
    ensures OpenResult(k, e) != -1 ==>
      var f := Opened(k, e).pcbs[k.terminalProcess[k.currentTerminal]].files[OpenResult(k, e)];
      && (e.fileType == 0 ==> f == File(Rtc, 0, 0, 1))
      && (e.fileType == 1 ==> f == File(Directory, 0, 0, 1))
      && (e.fileType == 2 ==> f == File(Regular, e.inode, 0, 1))
  {
  }

  /** `close` succeeds exactly for the descriptors 2 to 7 in use, and clears that one entry but for its inode. */
  lemma CloseExactly(k: State, fd: int)
    requires Runs(k)
    ensures var p := k.terminalProcess[k.currentTerminal];
      && (CanClose(k, fd) <==> 2 <= fd <= 7 && k.pcbs[p].files[fd].flags != 0)
      && (!CanClose(k, fd) ==> Closed(k, fd) == k)
      && (CanClose(k, fd) ==>
            && Closed(k, fd).pcbs[p].files == k.pcbs[p].files[fd := File(NoFile, k.pcbs[p].files[fd].inode, 0, 0)]
            && forall q :: 0 <= q < SLOTS && q != p ==> Closed(k, fd).pcbs[q] == k.pcbs[q])
  {
  }

  /** Closing what was just opened succeeds and frees the descriptor for the next `open`. */
  lemma OpenThenClose(k: State, e: Entry)
    requires Runs(k) && OpenResult(k, e) != -1
    ensures var fd := OpenResult(k, e); var r := Opened(k, e);
      && Runs(r) && CanClose(r, fd)
      && Runs(Closed(r, fd)) && OpenResult(Closed(r, fd), e) == fd
  {
    var fd, r := OpenResult(k, e), Opened(k, e);
    var s := Closed(r, fd);
    var p := k.terminalProcess[k.currentTerminal];
    var a, b := k.pcbs[p].files, s.pcbs[p].files;
    assert forall j :: 0 <= j < FILES && j != fd ==> b[j] == a[j];
    LowestIsUnique(b, MIN_FD, fd);
  }

  lemma {:induction false} LowestIsUnique(files: seq<File>, i: nat, fd: nat)
    requires i <= fd < |files| && files[fd].flags == 0
    requires forall j :: i <= j < fd ==> files[j].flags != 0
    ensures LowestFree(files, i) == fd
    decreases fd - i
  {
    if i < fd {
      LowestIsUnique(files, i + 1, fd);
    }
  }

  /** The user pages of two processes, of 4 MB each from 8 MB on, do not overlap. */
  lemma PagesDisjoint(p: int, q: int)
    requires IsSlot(p) && IsSlot(q) && p != q
    ensures PageOf(p) == 0x80_0000 + 0x40_0000 * p && PageOf(q) == 0x80_0000 + 0x40_0000 * q
    ensures PageOf(p) + 0x40_0000 <= PageOf(q) || PageOf(q) + 0x40_0000 <= PageOf(p)
  {
  }

  /** The kernel stacks of two processes, of 8 KB each down from 8 MB, do not overlap. */
  lemma StacksDisjoint(p: int, q: int)
    requires IsSlot(p) && IsSlot(q) && p != q
    ensures Top(p) == 0x80_0000 - 0x2000 * p - 4 && Top(q) == 0x80_0000 - 0x2000 * q - 4
    ensures Top(p) + 0x2000 <= Top(q) || Top(q) + 0x2000 <= Top(p)
  {
  }

  /** In every state of a run the user page and the kernel stack are those of the running process and of no other. */
  lemma OwnPageInRuns(k: State, events: seq<Event>, r: State)
    requires AfterFirstTick(k) && AllEnabled(k, events) && r == Run(k, events)
    ensures Shape(r) && 0 <= r.currentTerminal < TERMINALS
    ensures var p := r.terminalProcess[r.currentTerminal];
      && IsSlot(p) && r.processState[p] == 1
      && forall q :: IsSlot(q) ==> (r.page == PageOf(q) <==> q == p) && (r.esp0 == Top(q) <==> q == p)
  {
    EveryRunKeeps(k, events, r);
    var chains: seq<Chain> :| Inv(r, chains, 1 + TickCount(events));
    OwnPage(r, chains, 1 + TickCount(events));
  }

  lemma OwnPage(k: State, chains: seq<Chain>, ticks: nat)
    requires Inv(k, chains, ticks)
    ensures var p := k.terminalProcess[k.currentTerminal];
      && IsSlot(p) && k.processState[p] == 1
      && forall q :: IsSlot(q) ==> (k.page == PageOf(q) <==> q == p) && (k.esp0 == Top(q) <==> q == p)
  {
    TopIsLive(k, chains, k.currentTerminal);
    hide Tree, FreeSlotsClean;
    forall q | IsSlot(q) && q != k.terminalProcess[k.currentTerminal]
      ensures k.page != PageOf(q) && k.esp0 != Top(q)
    {
      PagesDisjoint(q, k.terminalProcess[k.currentTerminal]);
      StacksDisjoint(q, k.terminalProcess[k.currentTerminal]);
    }
  }

  /** The terminals get their shells in the first three ticks, one each, and from no other tick. */
  lemma ShellsStartOnce(k: State, chains: seq<Chain>, ticks: nat)
    requires Inv(k, chains, ticks) && CanTick(k)
    ensures StartsShell(k) <==> ticks < TERMINALS
    ensures NextTerminal(k) == ticks % TERMINALS
  {
    TicksInTurn(k, chains, ticks);
  }
}
