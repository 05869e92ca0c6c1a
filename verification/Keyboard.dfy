/** The keyboard handler's buffers and `terminal_read`, which fetches from them. */
module Keyboard {
  import opened Common
  import opened Strings
  import opened LineEditor

  const BUFFER: nat := 128

  class Buffers {
    const keys: array2<byte>
    const output: array2<byte>
    var size: seq<nat>
    var readReady: int          // 0 when a line has been entered
    var terminalId: nat

    ghost predicate IsBuffers()
      reads `size, `terminalId
    {
      && keys != output
      && keys.Length0 == output.Length0 == BUFFER && keys.Length1 == output.Length1 == TERMINALS
      && |size| == TERMINALS && terminalId < TERMINALS
      && forall t :: 0 <= t < TERMINALS ==> size[t] <= LIMIT
    }

    ghost function KeyColumn(t: nat): (s: seq<byte>)
      requires IsBuffers() && t < TERMINALS
      reads `size, `terminalId, keys
      ensures |s| == BUFFER
    {
      seq(BUFFER, i requires 0 <= i < BUFFER reads keys => keys[i, t])
    }

    ghost function OutputColumn(t: nat): (s: seq<byte>)
      requires IsBuffers() && t < TERMINALS
      reads `size, `terminalId, output
      ensures |s| == BUFFER
    {
      seq(BUFFER, i requires 0 <= i < BUFFER reads output => output[i, t])
    }

    ghost function LineAt(t: nat): Line
      requires IsBuffers() && t < TERMINALS
      reads `size, `terminalId, keys, output
    {
      Line(KeyColumn(t)[..size[t]], UpToNul(OutputColumn(t)))
    }

    ghost predicate Valid()
      reads `size, `terminalId, keys, output
    {
      IsBuffers() && forall t :: 0 <= t < TERMINALS ==> IsLine(LineAt(t))
    }

    ghost function AllLines(): (lines: seq<Line>)
      requires IsBuffers()
      reads `size, `terminalId, keys, output
      ensures |lines| == TERMINALS && forall t :: 0 <= t < TERMINALS ==> lines[t] == LineAt(t)
    {
      [LineAt(0), LineAt(1), LineAt(2)]
    }

    /** The state of the line editor that the buffers hold. */
    ghost function Machine(): (s: State)
      requires Valid()
      reads this, keys, output
      ensures LineEditor.Valid(s)
    {
      State(AllLines(), readReady == 0, terminalId)
    }

    /** The buffers as the kernel finds them. */
    constructor ()
      ensures IsBuffers() && fresh(keys) && fresh(output)
      ensures size == [0, 0, 0] && readReady == 1
    {
      keys, output := new byte[BUFFER, TERMINALS], new byte[BUFFER, TERMINALS];
      size := [0, 0, 0];
      readReady := 1;
      terminalId := 0;
    }

    /** Empty buffers on all terminals. */
    method KeybrdInit()
      requires IsBuffers() && size == [0, 0, 0]
      modifies keys, output, this`terminalId
      ensures Valid() && terminalId == 0
      ensures forall t :: 0 <= t < TERMINALS ==> LineAt(t) == Line([], [])
    {
      terminalId := 0;
      for j := 0 to TERMINALS
        invariant terminalId == 0
        invariant forall i, t :: 0 <= i < BUFFER && 0 <= t < j ==> keys[i, t] == NUL && output[i, t] == NUL
      {
        for i := 0 to BUFFER
          invariant terminalId == 0
          invariant forall m, t :: 0 <= m < BUFFER && 0 <= t < j ==> keys[m, t] == NUL && output[m, t] == NUL
          invariant forall m :: 0 <= m < i ==> keys[m, j] == NUL && output[m, j] == NUL
        {
          keys[i, j] := NUL;
          output[i, j] := NUL;
        }
      }
      forall t | 0 <= t < TERMINALS ensures LineAt(t) == Line([], []) {
        assert OutputColumn(t)[0] == NUL;
      }
    }

    /** Stores a character, unless the line is full. */
    method TypeChar(c: byte)
      requires Valid() && c != NUL && c != NEWLINE
      modifies keys, this`size
      ensures Valid()
      ensures AllLines() == old(AllLines())[terminalId := Pressed(old(LineAt(terminalId)), Char(c))]
    {
      hide UpToNul;
      var t := terminalId;
      if size[t] == LIMIT {
        return;
      }
      ghost var column, n := KeyColumn(t), size[t];
      keys[size[t], t] := c;
      size := size[t := size[t] + 1];
      assert KeyColumn(t) == column[n := c];
      assert column[n := c][..n + 1] == column[..n] + [c];
      assert OutputColumn(t) == old(OutputColumn(t));
      OthersKept(t);
      assert LineAt(t) == Pressed(old(LineAt(t)), Char(c));
    }

    /** The lines of the other terminals are as they were. */
    twostate lemma OthersKept(t: nat)
      requires old(IsBuffers()) && IsBuffers() && t < TERMINALS
      requires forall i, u :: 0 <= i < BUFFER && 0 <= u < TERMINALS && u != t ==>
        keys[i, u] == old(keys[i, u]) && output[i, u] == old(output[i, u])
      requires forall u :: 0 <= u < TERMINALS && u != t ==> size[u] == old(size[u])
      ensures AllLines() == old(AllLines())[t := LineAt(t)]
    {
      forall u | 0 <= u < TERMINALS && u != t ensures LineAt(u) == old(LineAt(u)) {
        assert KeyColumn(u) == old(KeyColumn(u)) && OutputColumn(u) == old(OutputColumn(u));
      }
    }

    /** Takes the last character off the line. */
    method EraseChar()
      requires Valid()
      modifies keys, this`size
      ensures Valid()
      ensures AllLines() == old(AllLines())[terminalId := Pressed(old(LineAt(terminalId)), Backspace)]
    {
      hide UpToNul;
      var t := terminalId;
      if size[t] > 0 {
        ghost var column, n := KeyColumn(t), size[t];
        size := size[t := size[t] - 1];
        keys[size[t], t] := NUL;
        assert KeyColumn(t)[..n - 1] == column[..n][..n - 1];
        assert OutputColumn(t) == old(OutputColumn(t));
        OthersKept(t);
        assert LineAt(t) == Pressed(old(LineAt(t)), Backspace);
      }
    }

    /** Ends the line in the key buffer; the result is its length. */
    method FinishLine() returns (n: nat)
      requires Valid()
      modifies keys
      ensures n <= LIMIT && IsBuffers()
      ensures KeyColumn(terminalId)[..n] == Entered(old(LineAt(terminalId)).typed) && KeyColumn(terminalId)[n] == NUL
      ensures n == |Entered(old(LineAt(terminalId)).typed)|
      ensures forall i, u :: 0 <= i < BUFFER && 0 <= u < TERMINALS && u != terminalId ==> keys[i, u] == old(keys[i, u])
    {
      var t := terminalId;
      ghost var column := KeyColumn(t);
      n := size[t];
      if size[t] < LIMIT {
        keys[size[t], t] := NEWLINE;
        keys[size[t] + 1, t] := NUL;
        n := n + 1;
        assert KeyColumn(t) == column[n - 1 := NEWLINE][n := NUL];
        assert column[n - 1 := NEWLINE][n := NUL][..n] == column[..n - 1] + [NEWLINE];
      } else {
        keys[size[t], t] := NUL;
        assert KeyColumn(t) == column[n := NUL];
        assert column[n := NUL][..n] == column[..n];
      }
    }

    /** Moves the first `n + 1` bytes of the line to the output buffer. */
    method MoveLine(n: nat)
      requires IsBuffers() && n < BUFFER
      modifies keys, output
      ensures forall i :: 0 <= i <= n ==> output[i, terminalId] == old(keys[i, terminalId])
      ensures forall i, u :: 0 <= i < BUFFER && 0 <= u < TERMINALS && u != terminalId ==>
        keys[i, u] == old(keys[i, u]) && output[i, u] == old(output[i, u])
    {
      var t := terminalId;
      for j := 0 to n + 1
        invariant forall i :: 0 <= i < j ==> output[i, t] == old(keys[i, t])
        invariant forall i :: j <= i < BUFFER ==> keys[i, t] == old(keys[i, t])
        invariant forall i, u :: 0 <= i < BUFFER && 0 <= u < TERMINALS && u != t ==>
          keys[i, u] == old(keys[i, u]) && output[i, u] == old(output[i, u])
      {
        output[j, t] := keys[j, t];
        keys[j, t] := NUL;
      }
    }

    /** Ends the line and moves it to the output buffer. */
    method HandOver()
      requires Valid()
      modifies keys, output
      ensures IsBuffers()
      ensures UpToNul(OutputColumn(terminalId)) == Entered(old(LineAt(terminalId)).typed)
      ensures forall i, u :: 0 <= i < BUFFER && 0 <= u < TERMINALS && u != terminalId ==>
        keys[i, u] == old(keys[i, u]) && output[i, u] == old(output[i, u])
    {
      var t := terminalId;
      ghost var line := Entered(LineAt(t).typed);
      EnteredIsLine(LineAt(t));
      var n := FinishLine();
      ghost var column := KeyColumn(t);
      assert forall i :: 0 <= i < BUFFER ==> keys[i, t] == column[i];
      MoveLine(n);
      assert OutputColumn(t)[..n] == column[..n] == line;
      UpToNulAt(OutputColumn(t), n);
    }

    /** Hands the line over to the next read and starts an empty one. */
    method EnterLine()
      requires Valid()
      modifies keys, output, this`size, this`readReady
      ensures Valid()
      ensures AllLines() == old(AllLines())[terminalId := Pressed(old(LineAt(terminalId)), Enter)] && readReady == 0
    {
      hide UpToNul;
      EnteredIsLine(LineAt(terminalId));
      HandOver();
      ghost var column := OutputColumn(terminalId);
      size := size[terminalId := 0];
      readReady := 0;
      assert OutputColumn(terminalId) == column;
      OthersKept(terminalId);
      assert LineAt(terminalId) == Pressed(old(LineAt(terminalId)), Enter);
    }

    lemma EnteredIsLine(l: Line)
      requires IsLine(l)
      ensures |Entered(l.typed)| <= LIMIT && NUL !in Entered(l.typed)
    {
    }

    /**
     The handler, for a key that is pressed: `key` is its character after the modifiers have been
     applied, and `isBackspace` says whether the scan code is that of the backspace key.
     */
    method HandleKey(key: byte, isBackspace: bool)
      requires Valid() && (isBackspace ==> !(32 <= key <= 126) && key != NEWLINE)
      modifies keys, output, this`size, this`readReady
      ensures Valid()
      ensures AllLines() == old(AllLines())[terminalId := Pressed(old(LineAt(terminalId)), KeyOf(key, isBackspace))]
      ensures readReady == if KeyOf(key, isBackspace).Enter? then 0 else old(readReady)
      ensures Machine() == Step(old(Machine()), Press(KeyOf(key, isBackspace)))
    {
      if !isBackspace && key != NEWLINE && 32 <= key <= 126 && key != NUL {
        TypeChar(key);
      }
      if isBackspace {
        EraseChar();
      }
      if key == NEWLINE {
        EnterLine();
      }
    }

    method SwitchTerminal(target: nat)
      requires Valid() && target < TERMINALS
      modifies this`terminalId
      ensures Valid()
      ensures AllLines() == old(AllLines()) && terminalId == target
      ensures Machine() == Step(old(Machine()), Switch(target))
    {
      terminalId := target;
      assert forall u :: 0 <= u < TERMINALS ==>
        KeyColumn(u) == old(KeyColumn(u)) && OutputColumn(u) == old(OutputColumn(u));
      assert forall u :: 0 <= u < TERMINALS ==> LineAt(u) == old(LineAt(u));
    }

    /**
     Fetches the line entered on the displayed terminal. The caller has waited until a line is
     ready and its own terminal, `currentTerminal`, is the displayed one.
     */
    method TerminalRead(buf: array<byte>, nbytes: int, currentTerminal: nat) returns (result: nat)
      requires Valid() && readReady == 0 && currentTerminal == terminalId
      requires nbytes > 0 ==> |Taken(LineAt(terminalId), nbytes)| < buf.Length
      requires buf as object != keys && buf as object != output
      modifies buf, output, this`readReady
      ensures Valid()
      ensures AllLines() == old(AllLines())[terminalId := AfterRead(old(LineAt(terminalId)), nbytes)] && readReady == 1
      ensures Machine() == Step(old(Machine()), Read(nbytes))
      ensures var text := Taken(old(LineAt(terminalId)), nbytes);
        result == |text| && result <= buf.Length && buf[..result] == text
      ensures nbytes > 0 ==> result < buf.Length && buf[result] == NUL
    {
      hide UpToNul;
      readReady := 1;
      if nbytes <= 0 {
        return 0;
      }
      result := CopyLine(buf, nbytes);
      DropLine();
    }

    /** Copies up to `nbytes` bytes of the entered line, and a terminator. */
    method CopyLine(buf: array<byte>, nbytes: nat) returns (result: nat)
      requires Valid() && 0 < nbytes && |Taken(LineAt(terminalId), nbytes)| < buf.Length
      requires buf as object != keys && buf as object != output
      modifies buf
      ensures Valid() && AllLines() == old(AllLines())
      ensures var text := Taken(old(LineAt(terminalId)), nbytes);
        result == |text| && result <= nbytes && buf[..result] == text && buf[result] == NUL
    {
      ghost var line := LineAt(terminalId).entered;
      result := CopyColumn(buf, nbytes, line);
      buf[result] := NUL;
      Untouched();
    }

    twostate lemma Untouched()
      requires old(IsBuffers()) && unchanged(keys) && unchanged(output) && size == old(size) &&
        terminalId == old(terminalId)
      ensures IsBuffers() && AllLines() == old(AllLines())
    {
      forall u | 0 <= u < TERMINALS ensures LineAt(u) == old(LineAt(u)) {
        assert KeyColumn(u) == old(KeyColumn(u)) && OutputColumn(u) == old(OutputColumn(u));
      }
    }

    method CopyColumn(buf: array<byte>, nbytes: nat, ghost line: seq<byte>) returns (result: nat)
      requires IsBuffers() && buf as object != output
      requires line == UpToNul(OutputColumn(terminalId)) && |line| <= LIMIT && Min(nbytes, |line|) <= buf.Length
      modifies buf
      ensures result == Min(nbytes, |line|) && buf[..result] == line[..result]
    {
      var t := terminalId;
      ghost var column := OutputColumn(t);
      result := 0;
      while result < nbytes && output[result, t] != NUL && result < LIMIT
        invariant result <= nbytes && result <= |line| && result <= LIMIT
        invariant buf[..result] == line[..result]
        invariant OutputColumn(t) == column
      {
        assert column[result] == output[result, t];
        NotYetEnded(column, result);
        buf[result] := output[result, t];
        result := result + 1;
      }
      if result < nbytes && result < LIMIT {
        LineEnds(column, result);
      }
    }

    /** Empties the entered line. */
    method DropLine()
      requires Valid()
      modifies output
      ensures Valid()
      ensures AllLines() == old(AllLines())[terminalId := old(LineAt(terminalId)).(entered := [])]
    {
      var t := terminalId;
      output[0, t] := NUL;
      assert OutputColumn(t)[0] == NUL;
      assert KeyColumn(t) == old(KeyColumn(t));
      OthersKept(t);
    }

    lemma NotYetEnded(column: seq<byte>, k: nat)
      requires k <= |UpToNul(column)| && k < |column| && column[k] != NUL
      ensures k < |UpToNul(column)|
    {
    }

    lemma LineEnds(column: seq<byte>, k: nat)
      requires k <= |UpToNul(column)| && k < |column| && column[k] == NUL
      ensures k == |UpToNul(column)|
    {
      var line := UpToNul(column);
      forall i | 0 <= i < |line| ensures column[i] != NUL {
        assert line[i] in line;
      }
    }
  }
}
