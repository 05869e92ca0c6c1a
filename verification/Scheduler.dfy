/** The kernel's own procedures over its global variables, each proved against its step. */
module Scheduler {
  import opened Common
  import opened Kernel

  class System {
    var pid: int
    var processState: seq<int>
    var terminalProcess: seq<int>
    var currentTerminal: int
    var nextTerminal: int
    var ready: bool
    var pcbs: seq<Pcb>
    var esp0: int
    var page: int

    function View(): State
      reads this
    {
      State(pid, processState, terminalProcess, currentTerminal, nextTerminal, ready, pcbs, esp0, page)
    }

    /** The memory of a kernel that has just been loaded. */
    constructor (pcbs: seq<Pcb>, page: int)
      ensures View() == Boot(pcbs, page).(currentTerminal := 0, ready := false, terminalProcess := [0, 0, 0])
    {
      pid := UNUSED;
      processState := seq(SLOTS, _ => 0);
      terminalProcess := [0, 0, 0];
      currentTerminal, nextTerminal, ready := 0, 0, false;
      this.pcbs, this.page := pcbs, page;
      esp0 := BASE - 4;
    }

    method InitializeSchedule()
      requires |terminalProcess| == TERMINALS
      modifies this
      ensures View() == old(View()).(ready := true, nextTerminal := 0, currentTerminal := UNUSED,
                                     terminalProcess := seq(TERMINALS, _ => UNUSED))
    {
      ready := true;
      nextTerminal := 0;
      currentTerminal := UNUSED;
      for i := 0 to TERMINALS
        invariant |terminalProcess| == TERMINALS && forall j :: 0 <= j < i ==> terminalProcess[j] == UNUSED
        invariant View() == old(View()).(ready := true, nextTerminal := 0, currentTerminal := UNUSED,
          terminalProcess := terminalProcess)
      {
        terminalProcess := terminalProcess[i := UNUSED];
      }
      assert terminalProcess == seq(TERMINALS, _ => UNUSED);
    }

    /** Takes the first free slot for a process on terminal `t`; without one the last number is used again. */
    method TakeSlot(t: nat)
      requires Shape(View()) && t < TERMINALS
      modifies this`pid, this`processState, this`terminalProcess
      ensures pid == NewPid(old(View()))
      ensures processState == if HasFreeSlot(old(View())) then old(processState)[pid := 1] else old(processState)
      ensures terminalProcess == old(terminalProcess)[t := pid]
    {
      ghost var states := processState;
      var i := 0;
      while i < SLOTS
        invariant 0 <= i <= SLOTS && processState == states && pid == old(pid)
        invariant FirstFree(states, i) == FirstFree(states, 0)
      {
        if processState[i] == 0 {
          processState := processState[i := 1];
          pid := i;
          break;
        }
        i := i + 1;
      }
      terminalProcess := terminalProcess[t := pid];
    }

    /** Fills in the control block of process `pid`, whose parent is `parent`. */
    method ConstructPcbEntries(parent: int, context: Context)
      requires Shape(View()) && IsSlot(pid)
      modifies this`pcbs
      ensures var slot := old(pcbs)[pid];
        pcbs == old(pcbs)[pid := Pcb(slot.files[0 := CONSOLE][1 := CONSOLE], parent, pid, esp0, context, slot.saved)]
    {
      var slot := pcbs[pid];
      slot := slot.(pid := pid, esp0 := esp0);
      slot := slot.(files := slot.files[1 := CONSOLE]);
      slot := slot.(files := slot.files[0 := CONSOLE]);
      slot := slot.(parent := parent);
      assert slot.files == pcbs[pid].files[0 := CONSOLE][1 := CONSOLE];
      pcbs := pcbs[pid := slot.(caller := context)];
    }

    /** Starts a program, once its name and format have been checked; `context` are the caller's registers. */
    method Execute(displayed: nat, context: Context) returns (started: bool)
      requires pid != LAST_PID ==> CanExecute(View(), displayed)
      modifies this
      ensures started == (old(pid) != LAST_PID)
      ensures View() == Executed(old(View()), displayed, context)
    {
      if pid == LAST_PID {
        return false;
      }
      var parent;
      if ready {
        parent := terminalProcess[currentTerminal];
        TakeSlot(currentTerminal);
      } else {
        parent := terminalProcess[displayed];
        TakeSlot(displayed);
      }
      ready := false;
      page := PageOf(pid);
      ConstructPcbEntries(parent, context);
      esp0 := Top(pid);
      return true;
    }

    method ClearFileDescriptors()
      requires Runs(View())
      modifies this`pcbs
      ensures var p := terminalProcess[currentTerminal];
        pcbs == old(pcbs)[p := old(pcbs)[p].(files := ClosedFiles(old(pcbs)[p].files))]
    {
      var p := terminalProcess[currentTerminal];
      ghost var files := pcbs[p].files;
      for i := MIN_FD to FILES
        invariant |pcbs| == SLOTS && |pcbs[p].files| == FILES
        invariant pcbs == old(pcbs)[p := old(pcbs)[p].(files := pcbs[p].files)]
        invariant forall fd :: 0 <= fd < FILES ==>
          pcbs[p].files[fd] == if MIN_FD <= fd < i then files[fd].(flags := 0) else files[fd]
      {
        pcbs := pcbs[p := pcbs[p].(files := pcbs[p].files[i := pcbs[p].files[i].(flags := 0)])];
      }
      assert pcbs[p].files == ClosedFiles(files);
    }

    /** Ends the running process; the result is what its parent goes on with, if it is no base shell. */
    method Halt(displayed: nat, context: Context) returns (registers: Context)
      requires CanHalt(View())
      requires Ended(View()).pid == UNUSED ==> CanExecute(Ended(View()), displayed)
      modifies this
      ensures View() == Halted(old(View()), displayed, context)
      ensures Ended(old(View())).pid != UNUSED ==> registers == Continues(old(View()))
    {
      var pcb := pcbs[terminalProcess[currentTerminal]];
      esp0 := pcb.esp0;
      pid := pcb.pid;
      ClearFileDescriptors();
      processState := processState[pid := 0];
      pid := pcb.parent;
      terminalProcess := terminalProcess[currentTerminal := pid];
      assert View() == Ended(old(View()));
      registers := pcb.caller;
      if pid == UNUSED {
        var _ := Execute(displayed, context);
        return;
      }
      page := PageOf(pid);
    }

    /** Starts the shell of the terminal chosen by the scheduler. */
    method RunANewShell(context: Context) returns (started: bool)
      requires Shape(View()) && 0 <= nextTerminal < TERMINALS
      requires pid != LAST_PID ==> IsSlot(NewPid(View()))
      modifies this
      ensures started == (old(pid) != LAST_PID)
      ensures View() == Executed(old(View()).(ready := true, currentTerminal := old(nextTerminal)), 0, context)
    {
      ready := true;
      currentTerminal := nextTerminal;
      started := Execute(0, context);
    }

    /** The timer tick; `context` are the registers of the interrupted process, the result those of the resumed one. */
    method ScheduleHandler(context: Context) returns (registers: Context)
      requires CanTick(View())
      modifies this
      ensures View() == Ticked(old(View()), context)
      ensures !StartsShell(old(View())) || old(pid) == LAST_PID ==> registers == Resumed(old(View()), context)
    {
      if nextTerminal >= TERMINALS - 1 {
        nextTerminal := (currentTerminal + 1) % TERMINALS;
      } else {
        nextTerminal := currentTerminal + 1;
      }
      var current;
      if terminalProcess[nextTerminal] == UNUSED && pid == UNUSED {
        current := nextTerminal;
      } else {
        current := terminalProcess[currentTerminal];
      }
      pcbs := pcbs[current := pcbs[current].(saved := context)];
      assert View() == SwitchedOut(old(View()), context);
      if terminalProcess[nextTerminal] == UNUSED {
        var started := RunANewShell(context);
        if started {
          return context;
        }
      } else {
        current := terminalProcess[nextTerminal];
        page := PageOf(pcbs[current].pid);
        currentTerminal := nextTerminal;
      }
      registers := pcbs[current].saved;
      esp0 := Top(pcbs[current].pid);
    }

    /** Opens the file that the directory has under the given name. */
    method Open(entry: Entry) returns (result: int)
      requires Runs(View())
      modifies this`pcbs
      ensures result == OpenResult(old(View()), entry)
      ensures View() == Opened(old(View()), entry)
    {
      var p := terminalProcess[currentTerminal];
      var fd := MIN_FD;
      while fd < FILES && pcbs[p].files[fd].flags != 0
        invariant MIN_FD <= fd <= FILES
        invariant LowestFree(pcbs[p].files, fd) == LowestFree(pcbs[p].files, MIN_FD)
      {
        fd := fd + 1;
      }
      if fd == FILES || entry.Missing? {
        return -1;
      }
      var file;
      match entry.fileType {
        case 0 => file := File(Rtc, 0, 0, 1);
        case 1 => file := File(Directory, 0, 0, 1);
        case 2 => file := File(Regular, entry.inode, 0, 1);
        case _ => return -1;
      }
      pcbs := pcbs[p := pcbs[p].(files := pcbs[p].files[fd := file])];
      return fd;
    }

    method Close(fd: int) returns (result: int)
      requires Runs(View())
      modifies this`pcbs
      ensures result == if CanClose(old(View()), fd) then 0 else -1
      ensures View() == Closed(old(View()), fd)
    {
      var p := terminalProcess[currentTerminal];
      if fd < MIN_FD || fd >= FILES {
        return -1;
      }
      if pcbs[p].files[fd].flags == 0 {
        return -1;
      }
      var file := pcbs[p].files[fd].(position := 0, flags := 0, operations := NoFile);
      pcbs := pcbs[p := pcbs[p].(files := pcbs[p].files[fd := file])];
      return 0;
    }
  }
}
