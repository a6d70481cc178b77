/** test.py and test2.py: one turn of `main` once the assistant's run has completed.
    The first of the assistant's listed responses supplies the command; when the
    assistant listed none, `message_content` keeps its value from the turn before. The
    completion test comes before `execute_command`. Listing, posting and the run are
    the environment: each turn is handed the thread's messages. */
module TestDriver {
  import opened Text
  import opened Messages

  datatype Step =
    | Stop                                     // "Penetration Testing is complete."
    | Execute(command: string, filename: string)
    | Crash                                    // an exception nothing in `main` catches

  /** `message_content` after the wait loop: the first part of the first response when
      there is one (IndexError when that response has no part), else the value kept
      from before (None while it was never assigned: NameError at the test). The outer
      None is the IndexError. */
  function MessageContent(responses: seq<Message>, previous: Option<string>): Option<Option<string>>
  {
    if responses == [] then Some(previous)
    else if responses[0].content == [] then None
    else Some(Some(responses[0].content[0]))
  }

  /** One turn: `data` is the thread's messages, `id` the assistant's id. */
  function MainStep(data: seq<Message>, id: string, previous: Option<string>, timestamp: string): (s: Step)
    ensures s.Execute? ==> !IsPenTestComplete(s.command)
    ensures s.Execute? ==> ResultFileName(s.command, timestamp) == Some(s.filename)
  {
    match MessageContent(FilterByAssistant(data, id), previous)
    case None => Crash
    case Some(None) => Crash
    case Some(Some(c)) =>
      if IsPenTestComplete(c) then Stop
      else match ResultFileName(c, timestamp)
        case None => Crash
        case Some(name) => Execute(c, name)
  }

  /** The command a turn executes is the first part of the assistant's first listed
      response, or, when it listed none, the previous turn's command again. */
  lemma MainStepCommand(data: seq<Message>, id: string, previous: Option<string>, timestamp: string)
    ensures var s := MainStep(data, id, previous, timestamp);
      var rs := FilterByAssistant(data, id);
      s.Execute? ==>
        if rs == [] then previous == Some(s.command)
        else rs[0].assistantId == Some(id) && rs[0].content != [] && s.command == rs[0].content[0]
  {
  }

  /** The value `message_content` holds after a turn. */
  function NextContent(data: seq<Message>, id: string, previous: Option<string>): Option<string> {
    match MessageContent(FilterByAssistant(data, id), previous)
    case None => previous
    case Some(v) => v
  }

  /** A run of turns, the loop ending at `Stop` or `Crash`; returns the commands
      executed and whether the loop stopped on completion. */
  function Drive(pages: seq<seq<Message>>, id: string, previous: Option<string>, timestamp: string)
    : (r: (seq<string>, bool))
    decreases |pages|
  {
    if pages == [] then ([], false)
    else match MainStep(pages[0], id, previous, timestamp)
      case Stop => ([], true)
      case Crash => ([], false)
      case Execute(c, _) =>
        var rest := Drive(pages[1..], id, NextContent(pages[0], id, previous), timestamp);
        ([c] + rest.0, rest.1)
  }

  /** A command a turn executes is not a "done" reply and has a first word. */
  lemma ExecutedShape(data: seq<Message>, id: string, previous: Option<string>, timestamp: string)
    requires MainStep(data, id, previous, timestamp).Execute?
    ensures Executable(MainStep(data, id, previous, timestamp).command)
  {
    ResultFileNameExists(MainStep(data, id, previous, timestamp).command, timestamp);
  }

  /** A command that may reach `execute_command` without stopping or raising there. */
  predicate Executable(c: string) {
    !IsPenTestComplete(c) && !AllIn(c, Whitespace)
  }

  predicate AllExecutable(cmds: seq<string>) {
    forall i :: 0 <= i < |cmds| ==> Executable(cmds[i])
  }

  lemma AllExecutableCons(c: string, rest: seq<string>)
    requires Executable(c) && AllExecutable(rest)
    ensures AllExecutable([c] + rest)
  {
    var l := [c] + rest;
    forall i | 0 <= i < |l| ensures Executable(l[i]) {
      if i > 0 {
        assert l[i] == rest[i - 1];
      }
    }
  }

  /** No "done" reply is ever executed, in any run, and every executed command has a
      first word to name its result file. */
  lemma {:induction false} DriveNeverExecutesDone(pages: seq<seq<Message>>, id: string, previous: Option<string>, timestamp: string)
    ensures AllExecutable(Drive(pages, id, previous, timestamp).0)
    decreases |pages|
  {
    if pages != [] {
      var s := MainStep(pages[0], id, previous, timestamp);
      if s.Execute? {
        var next := NextContent(pages[0], id, previous);
        DriveNeverExecutesDone(pages[1..], id, next, timestamp);
        ExecutedShape(pages[0], id, previous, timestamp);
        var rest := Drive(pages[1..], id, next, timestamp).0;
        assert Drive(pages, id, previous, timestamp).0 == [s.command] + rest;
        AllExecutableCons(s.command, rest);
      }
    }
  }

  /** A turn in which the assistant listed nothing replays the previous command. */
  lemma StaleReplay(data: seq<Message>, id: string, c: string, timestamp: string)
    requires FilterByAssistant(data, id) == []
    requires Executable(c)
    ensures MainStep(data, id, Some(c), timestamp).Execute?
    ensures MainStep(data, id, Some(c), timestamp).command == c
  {
    ResultFileNameExists(c, timestamp);
  }

  /** Before any command has been received, a turn with no response raises NameError. */
  lemma FirstTurnUnassigned(data: seq<Message>, id: string, timestamp: string)
    requires FilterByAssistant(data, id) == []
    ensures MainStep(data, id, None, timestamp) == Crash
  {
  }
}
