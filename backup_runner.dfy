/** backup2.py: the read loop of `execute_command`. Lines of the command's output are
    copied to the result file as they arrive; once `readline` gives nothing, the loop
    stops when the process has finished or when more than 60 s have passed since the
    last line. The process and the clock are the environment: one event per pass. */
module BackupRunner {
  import opened Text

  /** One pass of the `while True` loop: `readline()` gave a non-empty `text` at clock
      `at`; or it gave the empty string, `poll()` answered `exited`, and the idle test
      read the clock `at`. */
  datatype ReadEvent = Line(text: string, at: nat) | NoLine(exited: bool, at: nat)

  /** `readline()` on the pipe blocks until a line or end of stream arrives, and end of
      stream is final: a trace the real loop can see has every line before every empty
      read. The functions below are defined for all traces. */
  predicate StreamOrder(events: seq<ReadEvent>) {
    forall i, j :: 0 <= i < j < |events| && events[i].NoLine? ==> events[j].NoLine?
  }

  datatype ReadEnd =
    | Finished      // `proc.poll() is not None`
    | Idle          // no line for more than 60 s: "continuing..."
    | Raised        // `output_received_time` read before any line set it: NameError,
                    // caught by `except Exception`, so `proc.terminate()` is skipped
    | OutOfEvents   // the modelled environment has no further event

  datatype Capture = Capture(written: string, ran: nat, end: ReadEnd)

  const IdleLimit: nat := 60

  /** The loop from a state in which `output_received_time` holds `received` (None while
      it is unassigned). */
  function Read(received: Option<nat>, events: seq<ReadEvent>): (c: Capture)
    ensures c.ran <= |events|
    decreases |events|
  {
    if events == [] then Capture([], 0, OutOfEvents)
    else match events[0]
      case Line(text, at) =>
        var r := Read(Some(at), events[1..]);
        Capture(text + r.written, r.ran + 1, r.end)
      case NoLine(exited, at) =>
        if exited then Capture([], 1, Finished)
        else if received.None? then Capture([], 1, Raised)
        else if at - received.value > IdleLimit then Capture([], 1, Idle)
        else
          var r := Read(received, events[1..]);
          Capture(r.written, r.ran + 1, r.end)
  }

  /** `output_received_time` after the events `cs`: the clock of the last line, or
      `received` when there was none. */
  function LastLine(received: Option<nat>, cs: seq<ReadEvent>): Option<nat>
    decreases |cs|
  {
    if cs == [] then received
    else LastLine(if cs[0].Line? then Some(cs[0].at) else received, cs[1..])
  }

  /** The texts of the lines among `cs`, concatenated. */
  function Lines(cs: seq<ReadEvent>): string
    decreases |cs|
  {
    if cs == [] then [] else (if cs[0].Line? then cs[0].text else []) + Lines(cs[1..])
  }

  predicate RaisesAt(received: Option<nat>, events: seq<ReadEvent>, i: nat)
    requires i < |events|
  {
    events[i].NoLine? && !events[i].exited && LastLine(received, events[..i]).None?
  }

  predicate IdleAt(received: Option<nat>, events: seq<ReadEvent>, i: nat)
    requires i < |events|
  {
    var last := LastLine(received, events[..i]);
    events[i].NoLine? && !events[i].exited && last.Some? && events[i].at - last.value > IdleLimit
  }

  predicate EndsAt(received: Option<nat>, events: seq<ReadEvent>, i: nat)
    requires i < |events|
  {
    (events[i].NoLine? && events[i].exited) || RaisesAt(received, events, i) || IdleAt(received, events, i)
  }

  /** What reaches the file: every line read, in order. */
  lemma {:induction false} ReadWrites(received: Option<nat>, events: seq<ReadEvent>)
    ensures var c := Read(received, events); c.written == Lines(events[..c.ran])
    decreases |events|
  {
    if events != [] {
      var c := Read(received, events);
      var next := if events[0].Line? then Some(events[0].at) else received;
      if c.ran > 1 {
        ReadWrites(next, events[1..]);
        assert events[..c.ran][1..] == events[1..][..c.ran - 1];
        assert events[..c.ran][0] == events[0];
      } else {
        assert events[..1] == [events[0]] && events[..1][1..] == [];
        if events[0].Line? {
          assert Read(next, events[1..]).ran == 0;
          assert events[1..] == [];
        }
      }
    }
  }

  lemma EndsAtShift(received: Option<nat>, events: seq<ReadEvent>, i: nat)
    requires 1 <= i < |events|
    ensures var next := if events[0].Line? then Some(events[0].at) else received;
      EndsAt(received, events, i) == EndsAt(next, events[1..], i - 1) &&
      RaisesAt(received, events, i) == RaisesAt(next, events[1..], i - 1) &&
      IdleAt(received, events, i) == IdleAt(next, events[1..], i - 1)
  {
    assert events[..i][1..] == events[1..][..i - 1];
    assert events[i] == events[1..][i - 1];
  }

  /** How the loop ends: at the first pass that finds the process finished, that reads
      the unassigned `output_received_time`, or that is more than 60 s after the last
      line; the cutoff is measured from that line, never from the start. */
  lemma {:induction false} ReadEnds(received: Option<nat>, events: seq<ReadEvent>)
    ensures var c := Read(received, events);
      forall i :: 0 <= i < c.ran && (i < c.ran - 1 || c.end == OutOfEvents) ==> !EndsAt(received, events, i)
    ensures var c := Read(received, events); c.end == OutOfEvents ==> c.ran == |events|
    ensures var c := Read(received, events);
      c.end != OutOfEvents ==>
        0 < c.ran &&
        (c.end == Finished ==> events[c.ran - 1].NoLine? && events[c.ran - 1].exited) &&
        (c.end == Raised ==> RaisesAt(received, events, c.ran - 1)) &&
        (c.end == Idle ==> IdleAt(received, events, c.ran - 1))
    decreases |events|
  {
    if events != [] {
      assert events[..0] == [];
      var next := if events[0].Line? then Some(events[0].at) else received;
      if events[0].Line? || (!events[0].exited && received.Some? && events[0].at - received.value <= IdleLimit) {
        ReadEnds(next, events[1..]);
        forall i | 1 <= i < |events|
          ensures EndsAt(received, events, i) == EndsAt(next, events[1..], i - 1)
          ensures RaisesAt(received, events, i) == RaisesAt(next, events[1..], i - 1)
          ensures IdleAt(received, events, i) == IdleAt(next, events[1..], i - 1)
        {
          EndsAtShift(received, events, i);
        }
        assert !EndsAt(received, events, 0);
      }
    }
  }

  /** The loop as written, from `open(filename, 'w')` to the end of the `try`. */
  method ReadLines(events: seq<ReadEvent>) returns (written: string, end: ReadEnd, ran: nat)
    ensures Capture(written, ran, end) == Read(None, events)
  {
    ghost var total := Read(None, events);
    written := [];
    end := OutOfEvents;
    ran := 0;
    var received: Option<nat> := None;
    var stopped := false;
    while !stopped && ran < |events|
      invariant 0 <= ran <= |events|
      invariant !stopped ==> end == OutOfEvents
      invariant !stopped ==>
        var r := Read(received, events[ran..]);
        total == Capture(written + r.written, ran + r.ran, r.end)
      invariant stopped ==> total == Capture(written, ran, end)
      decreases |events| - ran, if stopped then 0 else 1
    {
      var e := events[ran];
      assert events[ran..][0] == e && events[ran..][1..] == events[ran + 1..];
      match e {
        case Line(text, at) =>
          ghost var before := written;
          written := written + text;
          received := Some(at);
          ghost var later := Read(received, events[ran + 1..]).written;
          assert before + (text + later) == (before + text) + later;
        case NoLine(exited, at) =>
          if exited {
            end := Finished;
            stopped := true;
          } else if received.None? {
            end := Raised;
            stopped := true;
          } else if at - received.value > IdleLimit {
            end := Idle;
            stopped := true;
          }
          if stopped {
            assert written + [] == written;
          }
      }
      ran := ran + 1;
    }
    if !stopped {
      assert events[ran..] == [];
      assert written + [] == written;
    }
  }

  /** `output_received_time` after the events `cs` is set only when `received` was set
      or some event among `cs` is a line. */
  lemma {:induction false} LastLineSome(received: Option<nat>, cs: seq<ReadEvent>)
    ensures LastLine(received, cs).Some? ==>
      received.Some? || exists k :: 0 <= k < |cs| && cs[k].Line?
    decreases |cs|
  {
    if cs != [] {
      var next := if cs[0].Line? then Some(cs[0].at) else received;
      LastLineSome(next, cs[1..]);
      if LastLine(received, cs).Some? && !cs[0].Line? && received.None? {
        var k :| 0 <= k < |cs[1..]| && cs[1..][k].Line?;
        assert cs[k + 1].Line?;
      }
    }
  }

  /** The debug print at the end of every pass that goes on reads `elapsed_time`, which
      only the line branch assigns. As written that is harmless: a pass that goes on
      either read a line itself or passed the idle test, which needs an earlier line. */
  lemma ElapsedAssigned(events: seq<ReadEvent>)
    ensures var c := Read(None, events);
      forall i :: 0 <= i < c.ran && (i < c.ran - 1 || c.end == OutOfEvents) ==>
        events[i].Line? || exists k :: 0 <= k < i && events[k].Line?
  {
    ReadEnds(None, events);
    var c := Read(None, events);
    forall i | 0 <= i < c.ran && (i < c.ran - 1 || c.end == OutOfEvents)
      ensures events[i].Line? || exists k :: 0 <= k < i && events[k].Line?
    {
      LastLineSome(None, events[..i]);
      if !events[i].Line? {
        var k :| 0 <= k < i && events[..i][k].Line?;
        assert events[k].Line?;
      }
    }
  }

  /** As written, a command that closes or redirects its output and keeps running (say
      `nmap -sV host > scan.txt 2>&1`) reaches end of stream before any line: the first
      empty read, with the process still alive, raises NameError at the idle test, so
      the loop stops at once and `proc.terminate()` is skipped. */
  lemma SilentStartRaises()
    ensures StreamOrder([NoLine(false, 5), NoLine(true, 31)])
    ensures var c := Read(None, [NoLine(false, 5), NoLine(true, 31)]);
      c.end == Raised && c.written == [] && c.ran == 1
  {
  }

  /** On a trace the real loop can see, the loop as written raises exactly when the
      first read already finds end of stream with the process alive, that is, when the
      command prints no line at all before its idle test. */
  lemma RaisesIffSilent(events: seq<ReadEvent>)
    requires StreamOrder(events)
    ensures Read(None, events).end == Raised <==>
      events != [] && events[0].NoLine? && !events[0].exited
    ensures Read(None, events).end == Raised ==> Lines(events) == []
  {
    if events != [] {
      match events[0]
      case Line(_, at) =>
        NeverRaises(at, events[1..]);
      case NoLine(_, _) =>
        assert forall j :: 0 <= j < |events| ==> events[j].NoLine?;
        NoLines(events);
    }
  }

  /** Empty reads write nothing. */
  lemma {:induction false} NoLines(cs: seq<ReadEvent>)
    requires forall j :: 0 <= j < |cs| ==> cs[j].NoLine?
    ensures Lines(cs) == []
    decreases |cs|
  {
    if cs != [] {
      assert forall j :: 0 <= j < |cs| - 1 ==> cs[1..][j] == cs[j + 1];
      NoLines(cs[1..]);
    }
  }

  /** The evidently intended loop: `output_received_time` and `elapsed_time` are both
      set before the loop, as `last_write_time` is, so neither the idle test nor the
      debug print at the end of a pass can read an unassigned name. */
  function ReadFrom(start: nat, events: seq<ReadEvent>): (c: Capture)
    ensures c.end != Raised
  {
    var c := Read(Some(start), events);
    NeverRaises(start, events);
    c
  }

  /** With `output_received_time` set before the loop, the idle test never reads it
      unassigned; with `elapsed_time` set there too, the debug print never does. */
  lemma {:induction false} NeverRaises(start: nat, events: seq<ReadEvent>)
    ensures Read(Some(start), events).end != Raised
    decreases |events|
  {
    if events != [] {
      match events[0]
      case Line(_, at) => NeverRaises(at, events[1..]);
      case NoLine(_, _) => NeverRaises(start, events[1..]);
    }
  }

  /** In the intended loop, with both names set before it, the same command is waited
      for until it finishes, or until it has been silent for more than 60 s. */
  lemma SilentStartWaits()
    ensures var c := ReadFrom(0, [NoLine(false, 5), NoLine(true, 31)]);
      c.end == Finished && c.written == [] && c.ran == 2
    ensures StreamOrder([NoLine(false, 5), NoLine(false, 61)])
    ensures var c := ReadFrom(0, [NoLine(false, 5), NoLine(false, 61)]);
      c.end == Idle && c.ran == 2
  {
  }
}
