/**
 Processes and terminals, as a state machine. A step is a timer tick, or one of the calls
 `execute`, `halt`, `open` and `close` made by the process that runs.
 */
module Kernel {
  import opened Common

  const SLOTS: nat := 7
  const FILES: nat := 8
  const MIN_FD: nat := 2
  const UNUSED: int := -1
  const LAST_PID: int := 5        // execute refuses when the last process was given this number
  const BASE: int := 0x800000
  const STACK: int := 0x2000
  const PAGE: int := 0x400000

  /** The registers esp and ebp. */
  datatype Context = Context(esp: int, ebp: int)

  datatype Operations = NoFile | Terminal | Rtc | Directory | Regular

  datatype File = File(operations: Operations, inode: nat, position: nat, flags: int)

  datatype Pcb = Pcb(
    files: seq<File>,
    parent: int,
    pid: int,
    esp0: int,          // kernel stack top of the parent
    caller: Context,    // registers of the parent inside execute
    saved: Context)     // registers when a tick last switched away

  datatype State = State(
    pid: int,                    // the number given out or restored last
    processState: seq<int>,
    terminalProcess: seq<int>,   // the process on top of each terminal
    currentTerminal: int,        // the terminal whose process runs
    nextTerminal: int,
    ready: bool,                 // the next execute is for the terminal the scheduler chose
    pcbs: seq<Pcb>,
    esp0: int,                   // kernel stack top in the task state segment
    page: int)                   // where the user page is mapped

  /** The top of the kernel stack of process `p`, and the start of its user page. */
  function Top(p: int): int
  {
    BASE - 4 - STACK * p
  }

  function PageOf(p: int): int
  {
    BASE + PAGE * p
  }

  ghost predicate Shape(k: State)
  {
    && |k.processState| == |k.pcbs| == SLOTS
    && |k.terminalProcess| == TERMINALS
    && forall j :: 0 <= j < SLOTS ==> |k.pcbs[j].files| == FILES
  }

  predicate IsSlot(p: int)
  {
    0 <= p < SLOTS
  }

  // ---------- execute ----------

  /** The first free slot at or after `i`, or `SLOTS`. */
  function FirstFree(states: seq<int>, i: nat): (j: nat)
    requires i <= |states|
    ensures i <= j <= |states|
    ensures forall m :: i <= m < j ==> states[m] != 0
    ensures j < |states| ==> states[j] == 0
    decreases |states| - i
  {
    if i == |states| || states[i] == 0 then i else FirstFree(states, i + 1)
  }

  predicate HasFreeSlot(k: State)
  {
    FirstFree(k.processState, 0) < |k.processState|
  }

  const CONSOLE: File := File(Terminal, 0, 0, 1)

  /** The terminal that a new process is attached to. */
  function Target(k: State, displayed: nat): int
  {
    if k.ready then k.currentTerminal else displayed
  }

  /** The number a new process gets: that of the first free slot, or the last one again. */
  function NewPid(k: State): int
  {
    if HasFreeSlot(k) then FirstFree(k.processState, 0) else k.pid
  }

  ghost predicate CanExecute(k: State, displayed: nat)
  {
    Shape(k) && 0 <= Target(k, displayed) < TERMINALS && IsSlot(NewPid(k))
  }

  /** The start of a new process, whose parent is the one on top of the target terminal. */
  function Started(k: State, displayed: nat, context: Context): (r: State)
    requires CanExecute(k, displayed)
    ensures Shape(r)
  {
    var t, p := Target(k, displayed), NewPid(k);
    var slot := k.pcbs[p];
    k.(pid := p,
       processState := if HasFreeSlot(k) then k.processState[p := 1] else k.processState,
       terminalProcess := k.terminalProcess[t := p],
       ready := false,
       pcbs := k.pcbs[p := Pcb(slot.files[0 := CONSOLE][1 := CONSOLE], k.terminalProcess[t], p, k.esp0, context,
         slot.saved)],
       esp0 := Top(p),
       page := PageOf(p))
  }

  /** The outcome of `execute`, which is refused after the process numbered 5. */
  function Executed(k: State, displayed: nat, context: Context): State
    requires k.pid != LAST_PID ==> CanExecute(k, displayed)
  {
    if k.pid == LAST_PID then k else Started(k, displayed, context)
  }

  // ---------- halt ----------

  function ClosedFiles(files: seq<File>): (r: seq<File>)
    ensures |r| == |files|
  {
    seq(|files|, i requires 0 <= i < |files| => if i < MIN_FD then files[i] else files[i].(flags := 0))
  }

  ghost predicate CanHalt(k: State)
  {
    && Shape(k) && 0 <= k.currentTerminal < TERMINALS
    && IsSlot(k.terminalProcess[k.currentTerminal])
    && IsSlot(k.pcbs[k.terminalProcess[k.currentTerminal]].pid)
  }

  /** The running process gone and its parent on top of the terminal. */
  function Ended(k: State): (r: State)
    requires CanHalt(k)
    ensures Shape(r)
  {
    var p := k.terminalProcess[k.currentTerminal];
    var pcb := k.pcbs[p];
    k.(pid := pcb.parent,
       processState := k.processState[pcb.pid := 0],
       terminalProcess := k.terminalProcess[k.currentTerminal := pcb.parent],
       pcbs := k.pcbs[p := pcb.(files := ClosedFiles(pcb.files))],
       esp0 := pcb.esp0)
  }

  /** A base shell that halts is replaced by a new one; otherwise the parent goes on. */
  function Halted(k: State, displayed: nat, context: Context): State
    requires CanHalt(k)
    requires Ended(k).pid == UNUSED ==> CanExecute(Ended(k), displayed)
  {
    var r := Ended(k);
    if r.pid == UNUSED then Executed(r, displayed, context) else r.(page := PageOf(r.pid))
  }

  /** The registers with which the parent goes on. */
  function Continues(k: State): Context
    requires CanHalt(k)
  {
    k.pcbs[k.terminalProcess[k.currentTerminal]].caller
  }

  // ---------- the timer tick ----------

  function NextTerminal(k: State): int
  {
    if k.nextTerminal >= TERMINALS - 1 then (k.currentTerminal + 1) % TERMINALS else k.currentTerminal + 1
  }

  /** The slot whose saved registers the tick overwrites. */
  function Outgoing(k: State): int
    requires Shape(k) && 0 <= NextTerminal(k) < TERMINALS
    requires k.terminalProcess[NextTerminal(k)] == k.pid == UNUSED || 0 <= k.currentTerminal < TERMINALS
  {
    var n := NextTerminal(k);
    if k.terminalProcess[n] == UNUSED && k.pid == UNUSED then n else k.terminalProcess[k.currentTerminal]
  }

  ghost predicate CanTick(k: State)
  {
    && Shape(k)
    && 0 <= NextTerminal(k) < TERMINALS
    && (k.terminalProcess[NextTerminal(k)] == k.pid == UNUSED || 0 <= k.currentTerminal < TERMINALS)
    && IsSlot(Outgoing(k))
    && (k.terminalProcess[NextTerminal(k)] == UNUSED ==> IsSlot(NewPid(k)))
    && (k.terminalProcess[NextTerminal(k)] != UNUSED ==> IsSlot(k.terminalProcess[NextTerminal(k)]))
  }

  /** The registers of the running process put away, and the next terminal chosen. */
  function SwitchedOut(k: State, context: Context): (r: State)
    requires CanTick(k)
    ensures Shape(r)
  {
    var o := Outgoing(k);
    k.(nextTerminal := NextTerminal(k), pcbs := k.pcbs[o := k.pcbs[o].(saved := context)])
  }

  /** The slot whose process runs after a tick that starts no shell. */
  function Incoming(k: State): int
    requires CanTick(k)
  {
    if k.terminalProcess[NextTerminal(k)] == UNUSED then Outgoing(k) else k.terminalProcess[NextTerminal(k)]
  }

  function Ticked(k: State, context: Context): State
    requires CanTick(k)
  {
    var s := SwitchedOut(k, context);
    var n := NextTerminal(k);
    if k.terminalProcess[n] == UNUSED then
      var c := s.(ready := true, currentTerminal := n);
      // a shell that does not start leaves the process that was interrupted running
      if c.pid == LAST_PID then c.(esp0 := Top(c.pcbs[Outgoing(k)].pid)) else Started(c, 0, context)
    else
      var q := s.pcbs[Incoming(k)];
      s.(currentTerminal := n, page := PageOf(q.pid), esp0 := Top(q.pid))
  }

  /** The registers with which the incoming process goes on. */
  function Resumed(k: State, context: Context): Context
    requires CanTick(k)
  {
    SwitchedOut(k, context).pcbs[Incoming(k)].saved
  }

  // ---------- open and close ----------

  /** The first descriptor from `i` on that is not in use, or `FILES`. */
  function LowestFree(files: seq<File>, i: nat): (fd: nat)
    requires i <= |files|
    ensures i <= fd <= |files|
    ensures forall j :: i <= j < fd ==> files[j].flags != 0
    ensures fd < |files| ==> files[fd].flags == 0
    decreases |files| - i
  {
    if i == |files| || files[i].flags == 0 then i else LowestFree(files, i + 1)
  }

  ghost predicate Runs(k: State)
  {
    Shape(k) && 0 <= k.currentTerminal < TERMINALS && IsSlot(k.terminalProcess[k.currentTerminal])
  }

  /** A directory entry: the type of file and its inode. */
  datatype Entry = Missing | Found(fileType: nat, inode: nat)

  function NewFile(e: Entry): File
    requires e.Found?
  {
    match e.fileType
    case 0 => File(Rtc, 0, 0, 1)
    case 1 => File(Directory, 0, 0, 1)
    case _ => File(Regular, e.inode, 0, 1)
  }

  /** The descriptor that `open` returns, or -1. */
  function OpenResult(k: State, e: Entry): int
    requires Runs(k)
  {
    var fd := LowestFree(k.pcbs[k.terminalProcess[k.currentTerminal]].files, MIN_FD);
    if fd == FILES || e.Missing? || e.fileType > 2 then -1 else fd
  }

  function SetFile(k: State, fd: nat, f: File): (r: State)
    requires Runs(k) && fd < FILES
    ensures Shape(r)
  {
    var p := k.terminalProcess[k.currentTerminal];
    k.(pcbs := k.pcbs[p := k.pcbs[p].(files := k.pcbs[p].files[fd := f])])
  }

  function Opened(k: State, e: Entry): State
    requires Runs(k)
  {
    var fd := OpenResult(k, e);
    if fd == -1 then k else SetFile(k, fd, NewFile(e))
  }

  predicate CanClose(k: State, fd: int)
    requires Runs(k)
  {
    MIN_FD <= fd < FILES && k.pcbs[k.terminalProcess[k.currentTerminal]].files[fd].flags != 0
  }

  function Closed(k: State, fd: int): State
    requires Runs(k)
  {
    if !CanClose(k, fd) then k
    else SetFile(k, fd, k.pcbs[k.terminalProcess[k.currentTerminal]].files[fd].(operations := NoFile, position := 0,
      flags := 0))
  }

  // ---------- the state machine ----------

  datatype Event =
    | Tick(context: Context)
    | Execute(displayed: nat, context: Context)
    | Halt(displayed: nat, context: Context)
    | Open(entry: Entry)
    | Close(fd: int)

  function Boot(pcbs: seq<Pcb>, page: int): State
  {
    State(UNUSED, seq(SLOTS, _ => 0), seq(TERMINALS, _ => UNUSED), UNUSED, 0, true, pcbs, BASE - 4, page)
  }

  /** A tick finds no shell on the terminal it turns to. */
  predicate StartsShell(k: State)
    requires CanTick(k)
  {
    k.terminalProcess[NextTerminal(k)] == UNUSED
  }

  /**
   The steps considered. A new process needs a free slot, and it has to be for the terminal whose
   process asks for it: `execute` attaches it to the terminal that is displayed.
   */
  ghost predicate Enabled(k: State, e: Event)
  {
    match e
    case Tick(_) => CanTick(k) && (StartsShell(k) ==> k.pid != LAST_PID && HasFreeSlot(k))
    case Execute(displayed, _) => Runs(k) && !k.ready &&
      (k.pid == LAST_PID || (displayed == k.currentTerminal && HasFreeSlot(k)))
    case Halt(displayed, _) => CanHalt(k) && !k.ready &&
      (Ended(k).pid == UNUSED ==> displayed == k.currentTerminal && HasFreeSlot(Ended(k)))
    case Open(_) => Runs(k)
    case Close(_) => Runs(k)
  }

  /** The steps that the kernel carries out, whatever becomes of its tables. */
  ghost predicate Possible(k: State, e: Event)
  {
    match e
    case Tick(_) => CanTick(k)
    case Execute(displayed, _) => Runs(k) && !k.ready && (k.pid != LAST_PID ==> CanExecute(k, displayed))
    case Halt(displayed, _) => CanHalt(k) && !k.ready && (Ended(k).pid == UNUSED ==> CanExecute(Ended(k), displayed))
    case Open(_) => Runs(k)
    case Close(_) => Runs(k)
  }

  function Step(k: State, e: Event): State
    requires Possible(k, e)
  {
    match e
    case Tick(context) => Ticked(k, context)
    case Execute(displayed, context) => Executed(k, displayed, context)
    case Halt(displayed, context) => Halted(k, displayed, context)
    case Open(entry) => Opened(k, entry)
    case Close(fd) => Closed(k, fd)
  }

  ghost predicate AllEnabled(k: State, events: seq<Event>)
    decreases |events|
  {
    events == [] || (Enabled(k, events[0]) && AllEnabled(Step(k, events[0]), events[1..]))
  }

  function Run(k: State, events: seq<Event>): State
    requires AllEnabled(k, events)
    decreases |events|
  {
    if events == [] then k else Run(Step(k, events[0]), events[1..])
  }

  /** The number of ticks after step `e`, if there were `ticks` before it. */
  function TicksAfter(ticks: nat, e: Event): nat
  {
    if e.Tick? then ticks + 1 else ticks
  }

  function TickCount(events: seq<Event>): nat
  {
    if events == [] then 0 else (if events[0].Tick? then 1 else 0) + TickCount(events[1..])
  }
}
