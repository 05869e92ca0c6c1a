/**
 Typing lines on three terminals, as a state machine on lists. Keys go to the terminal that is
 displayed; `Enter` hands its line over to the next read.
 */
module LineEditor {
  import opened Common

  const LIMIT: nat := 127

  /** The line being typed on a terminal, and the line entered last and not yet read. */
  datatype Line = Line(typed: seq<byte>, entered: seq<byte>)

  datatype Key = Char(c: byte) | Backspace | Enter | Ignored

  /** What a key means, by its character and whether it is the backspace key. */
  function KeyOf(c: byte, isBackspace: bool): (k: Key)
    ensures k.Char? ==> k.c != NUL && k.c != NEWLINE
  {
    if isBackspace then Backspace
    else if c == NEWLINE then Enter
    else if 32 <= c <= 126 then Char(c)
    else Ignored
  }

  /** What `Enter` hands over: the line and a newline, if that still fits. */
  function Entered(typed: seq<byte>): seq<byte>
  {
    if |typed| < LIMIT then typed + [NEWLINE] else typed
  }

  function Pressed(l: Line, k: Key): Line
  {
    match k
    case Char(c) => if |l.typed| >= LIMIT then l else l.(typed := l.typed + [c])
    case Backspace => if l.typed == [] then l else l.(typed := l.typed[..|l.typed| - 1])
    case Enter => Line([], Entered(l.typed))
    case Ignored => l
  }

  /** The text a read of up to `n` bytes returns. */
  function Taken(l: Line, n: int): seq<byte>
  {
    if n <= 0 then [] else l.entered[..Min(n, |l.entered|)]
  }

  /** The rest of a line that is not read in full is lost. */
  function AfterRead(l: Line, n: int): Line
  {
    if n <= 0 then l else l.(entered := [])
  }

  ghost predicate IsLine(l: Line)
  {
    && |l.typed| <= LIMIT && NUL !in l.typed
    && |l.entered| <= LIMIT && NUL !in l.entered
  }

  // ---------- the machine ----------

  datatype State = State(lines: seq<Line>, ready: bool, displayed: nat)

  datatype Event = Press(k: Key) | Switch(t: nat) | Read(n: int)

  ghost predicate Valid(s: State)
  {
    && |s.lines| == TERMINALS && s.displayed < TERMINALS
    && forall t :: 0 <= t < TERMINALS ==> IsLine(s.lines[t])
  }

  /** A read returns only when a line has been entered and its process runs on the displayed terminal. */
  ghost predicate Enabled(s: State, e: Event)
  {
    match e
    case Press(k) => k.Char? ==> k.c != NUL && k.c != NEWLINE
    case Switch(t) => t < TERMINALS
    case Read(_) => s.ready
  }

  function Step(s: State, e: Event): (r: State)
    requires Valid(s) && Enabled(s, e)
    ensures Valid(r)
  {
    var l := s.lines[s.displayed];
    match e
    case Press(k) => State(s.lines[s.displayed := Pressed(l, k)], s.ready || k.Enter?, s.displayed)
    case Switch(t) => s.(displayed := t)
    case Read(n) => State(s.lines[s.displayed := AfterRead(l, n)], false, s.displayed)
  }

  ghost predicate AllEnabled(s: State, events: seq<Event>)
    requires Valid(s)
    decreases |events|
  {
    events == [] || (Enabled(s, events[0]) && AllEnabled(Step(s, events[0]), events[1..]))
  }

  function Run(s: State, events: seq<Event>): (r: State)
    requires Valid(s) && AllEnabled(s, events)
    ensures Valid(r)
    decreases |events|
  {
    if events == [] then s else Run(Step(s, events[0]), events[1..])
  }

  /** The keys that go to terminal `t`, when `displayed` is on the screen first. */
  function KeysFor(t: nat, displayed: nat, events: seq<Event>): seq<Key>
    decreases |events|
  {
    if events == [] then []
    else
      match events[0]
      case Press(k) => (if displayed == t then [k] else []) + KeysFor(t, displayed, events[1..])
      case Switch(u) => KeysFor(t, u, events[1..])
      case Read(_) => KeysFor(t, displayed, events[1..])
  }

  /** The line that a sequence of keys leaves in an editor of its own. */
  function Edited(typed: seq<byte>, keys: seq<Key>): seq<byte>
    decreases |keys|
  {
    if keys == [] then typed else Edited(Pressed(Line(typed, []), keys[0]).typed, keys[1..])
  }

  lemma TypedAlone(l: Line, k: Key)
    ensures Pressed(Line(l.typed, []), k).typed == Pressed(l, k).typed
  {
  }

  // ---------- what the keys do ----------

  /** The keys by scan code and character: backspace, newline (10), and the printable characters (32 to 126). */
  lemma KeysByCode(c: byte)
    ensures KeyOf(c, true) == Backspace
    ensures KeyOf(c, false) == if c == 10 then Enter else if 32 <= c <= 126 then Char(c) else Ignored
  {
  }

  /** The keys of a text. */
  function Typing(text: seq<byte>): seq<Key>
  {
    seq(|text|, i requires 0 <= i < |text| => Char(text[i]))
  }

  /** Typing appends a text, as far as the line has room for 127 characters. */
  lemma {:induction false} TypingAppends(typed: seq<byte>, text: seq<byte>)
    requires |typed| <= 127
    ensures Edited(typed, Typing(text)) == typed + text[..Min(|text|, 127 - |typed|)]
    decreases |text|
  {
    if text == [] {
      assert typed + [] == typed;
    } else {
      var rest := text[1..];
      assert Typing(text)[1..] == Typing(rest);
      if |typed| < 127 {
        TypingAppends(typed + [text[0]], rest);
        var n := Min(|rest|, 126 - |typed|);
        assert text[..n + 1] == [text[0]] + rest[..n];
      } else {
        TypingAppends(typed, rest);
        assert text[..0] == rest[..0];
      }
    }
  }

  /** A character and then backspace change nothing, except that the last character of a full line is lost. */
  lemma CharThenBackspace(typed: seq<byte>, c: byte)
    requires |typed| <= 127
    ensures Edited(typed, [Char(c), Backspace]) == if |typed| < 127 then typed else typed[..126]
  {
    assert [Char(c), Backspace][1..] == [Backspace] && [Backspace][1..] == [];
    if |typed| < 127 {
      assert (typed + [c])[..|typed|] == typed;
    }
  }

  /** What a read returns after `Enter` is the line, and ends in a newline exactly if the line was shorter than 127. */
  lemma EnteredText(typed: seq<byte>)
    requires |typed| <= 127 && 10 !in typed
    ensures Entered(typed) == if |typed| < 127 then typed + [10] else typed
    ensures Entered(typed)[|Entered(typed)| - 1] == 10 <==> |typed| < 127
  {
    assert |typed| == 127 ==> typed[126] in typed;
  }

  /** A read takes the first `n` bytes of the line, or all there are, and the rest is gone. */
  lemma TakenByLength(l: Line, n: int)
    ensures Taken(l, n) <= l.entered
    ensures |Taken(l, n)| == if n <= 0 then 0 else if n < |l.entered| then n else |l.entered|
    ensures AfterRead(l, n) == if n <= 0 then l else Line(l.typed, [])
  {
  }

  /** On any mix of terminals, each line is what its own keys make of it. */
  lemma {:induction false} LinesAreIndependent(s: State, events: seq<Event>, t: nat)
    requires Valid(s) && AllEnabled(s, events) && t < TERMINALS
    ensures Run(s, events).lines[t].typed == Edited(s.lines[t].typed, KeysFor(t, s.displayed, events))
    decreases |events|
  {
    if events != [] {
      var e := events[0];
      LinesAreIndependent(Step(s, e), events[1..], t);
      if e.Press? {
        var rest := KeysFor(t, s.displayed, events[1..]);
        if s.displayed == t {
          assert ([e.k] + rest)[1..] == rest;
          TypedAlone(s.lines[t], e.k);
        } else {
          assert [] + rest == rest;
        }
      }
    }
  }

  /** While `t` is displayed the run neither enters a line nor reads one. */
  ghost predicate LeavesAlone(t: nat, displayed: nat, events: seq<Event>)
    decreases |events|
  {
    events == [] ||
    (match events[0]
     case Press(k) => !(displayed == t && k.Enter?) && LeavesAlone(t, displayed, events[1..])
     case Switch(u) => LeavesAlone(t, u, events[1..])
     case Read(_) => displayed != t && LeavesAlone(t, displayed, events[1..]))
  }

  lemma {:induction false} EnteredKept(s: State, events: seq<Event>, t: nat)
    requires Valid(s) && AllEnabled(s, events) && t < TERMINALS && LeavesAlone(t, s.displayed, events)
    ensures Run(s, events).lines[t].entered == s.lines[t].entered
    decreases |events|
  {
    if events != [] {
      EnteredKept(Step(s, events[0]), events[1..], t);
    }
  }

  /**
   A read after `Enter` returns the line that was typed, whatever is typed and read on the other
   terminals in between, if the buffer is large enough.
   */
  lemma ReadReturnsLine(s: State, events: seq<Event>, n: nat)
    requires Valid(s) && n >= |Entered(s.lines[s.displayed].typed)|
    requires AllEnabled(Step(s, Press(Enter)), events) && LeavesAlone(s.displayed, s.displayed, events)
    ensures var l := s.lines[s.displayed];
      Taken(Run(Step(s, Press(Enter)), events).lines[s.displayed], n) == Entered(l.typed)
  {
    EnteredKept(Step(s, Press(Enter)), events, s.displayed);
    var e := Entered(s.lines[s.displayed].typed);
    assert e[..|e|] == e;
    assert n > 0 || e == [];
  }

  /** The run enters no line anywhere. */
  ghost predicate NoEnter(events: seq<Event>)
  {
    forall e :: e in events ==> !(e.Press? && e.k.Enter?)
  }

  /**
   There is one flag for all terminals: after `Enter` a read can go ahead exactly as long as no
   read, on whatever terminal, has happened since.
   */
  lemma {:induction false} ReadableExactly(s: State, events: seq<Event>)
    requires Valid(s) && AllEnabled(s, events) && NoEnter(events)
    ensures Run(s, events).ready <==> s.ready && forall e :: e in events ==> !e.Read?
    decreases |events|
  {
    if events != [] {
      assert NoEnter(events[1..]);
      ReadableExactly(Step(s, events[0]), events[1..]);
      assert forall e :: e in events <==> e == events[0] || e in events[1..];
    }
  }

  /** A line entered on terminal 0 and a read on terminal 1: the line is still there, but no read can fetch it. */
  lemma ReadOnOtherTerminalBlocks(s: State)
    requires Valid(s) && s.displayed == 0
    ensures var events := [Press(Enter), Switch(1), Read(LIMIT), Switch(0)];
      && AllEnabled(s, events)
      && var r := Run(s, events);
         r.lines[0].entered == Entered(s.lines[0].typed) && !Enabled(r, Read(LIMIT))
  {
    var s1 := Step(s, Press(Enter));
    var s2 := Step(s1, Switch(1));
    var s3 := Step(s2, Read(LIMIT));
    var s4 := Step(s3, Switch(0));
    var events := [Press(Enter), Switch(1), Read(LIMIT), Switch(0)];
    var e1, e2, e3: seq<Event> := events[1..], [Read(LIMIT), Switch(0)], [Switch(0)];
    assert e1[1..] == e2 && e2[1..] == e3 && e3[1..] == [];
    assert AllEnabled(s4, []) && AllEnabled(s3, e3) && AllEnabled(s2, e2) && AllEnabled(s1, e1);
    assert Run(s, events) == Run(s1, e1) == Run(s2, e2) == Run(s3, e3) == s4;
  }
}
