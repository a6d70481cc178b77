/** The pure helpers the conversation drivers share: the assistant-id filter over a
    thread's messages, the result-file name, and the completion test on a reply. */
module Messages {
  import opened Text

  /** A thread message as the scripts read it: the id of the assistant that wrote it
      (None on a user message) and the text values of its content parts, in order. */
  datatype Message = Message(assistantId: Option<string>, content: seq<string>)

  /** `[msg for msg in messages.data if msg.assistant_id == assistant_id]`. */
  function FilterByAssistant(msgs: seq<Message>, id: string): (r: seq<Message>)
    ensures forall i :: 0 <= i < |r| ==> r[i].assistantId == Some(id)
    ensures IsSubsequence(r, msgs)
    decreases |msgs|
  {
    if msgs == [] then []
    else
      var rest := FilterByAssistant(msgs[1..], id);
      if msgs[0].assistantId == Some(id) then
        assert ([msgs[0]] + rest)[1..] == rest;
        [msgs[0]] + rest
      else rest
  }

  /** Together with the subsequence property above this pins the filter down: every
      message of that assistant is kept as often as it occurs, and no other is. */
  lemma {:induction false} FilterCounts(msgs: seq<Message>, id: string, m: Message)
    ensures multiset(FilterByAssistant(msgs, id))[m] ==
      if m.assistantId == Some(id) then multiset(msgs)[m] else 0
    decreases |msgs|
  {
    if msgs != [] {
      FilterCounts(msgs[1..], id, m);
      assert msgs == [msgs[0]] + msgs[1..];
    }
  }

  /** What follows the command's first word in the result file name. */
  function ResultSuffix(timestamp: string): string {
    "_results_" + timestamp + ".txt"
  }

  /** `f"{command.split()[0]}_results_{timestamp}.txt"`; None where `split()[0]` raises
      IndexError, which happens before the `try` and so escapes the function. */
  function ResultFileName(command: string, timestamp: string): Option<string> {
    match FirstToken(command)
    case None => None
    case Some(base) => Some(base + ResultSuffix(timestamp))
  }

  /** The file name exists exactly when the command has a non-whitespace character. */
  lemma ResultFileNameExists(command: string, timestamp: string)
    ensures ResultFileName(command, timestamp).None? <==> AllIn(command, Whitespace)
  {
    FirstTokenExists(command);
  }

  /** It then starts with the command's first word, which is non-empty and contains no
      whitespace, and the rest is fixed by the timestamp, so the word can be read back
      from the name. */
  lemma ResultFileNameShape(command: string, timestamp: string)
    requires ResultFileName(command, timestamp).Some?
    ensures var name := ResultFileName(command, timestamp).value;
      var n := |name| - |ResultSuffix(timestamp)|;
      0 < n && name[..n] == FirstToken(command).value && name[n..] == ResultSuffix(timestamp) &&
      (forall i :: 0 <= i < n ==> !IsSpace(name[i]))
  {
    var _ := FirstTokenShape(command);
    var base := FirstToken(command).value;
    var name := base + ResultSuffix(timestamp);
    assert name[..|base|] == base;
    assert name[|base|..] == ResultSuffix(timestamp);
  }

  /** `is_pen_test_complete`: `message.strip().lower() == "done"`. */
  predicate IsPenTestComplete(message: string) {
    Lower(Trim(message)) == "done"
  }

  /** A reply the completion test accepts is the word "done", in some letter case,
      with only whitespace around it. */
  lemma CompleteIsPaddedDone(message: string) returns (i: nat, j: nat)
    requires IsPenTestComplete(message)
    ensures i <= j <= |message| &&
      AllIn(message[..i], Whitespace) && AllIn(message[j..], Whitespace) &&
      Lower(message[i..j]) == "done"
  {
    i := StripOfSlice(message, Whitespace);
    j := i + |Trim(message)|;
  }

  /** Conversely, the word "done" in any letter case with any whitespace around it is
      accepted. Together the two lemmas say the test accepts exactly these replies. */
  lemma PaddedDoneIsComplete(message: string, i: nat, j: nat)
    requires i <= j <= |message|
    requires AllIn(message[..i], Whitespace) && AllIn(message[j..], Whitespace)
    requires Lower(message[i..j]) == "done"
    ensures IsPenTestComplete(message)
  {
    var w := message[i..j];
    assert |w| == 4;
    assert LowerChar(w[0]) == Lower(w)[0] == 'd';
    assert LowerChar(w[3]) == Lower(w)[3] == 'e';
    assert !IsSpace(w[0]) && !IsSpace(w[3]);
    assert message == message[..i] + w + message[j..];
    StripOfPadded(message[..i], w, message[j..], Whitespace);
  }

  /** Examples: letter case and surrounding whitespace do not matter ... */
  lemma PenTestCompleteAccepts()
    ensures IsPenTestComplete("Done") && IsPenTestComplete(" DONE\n")
  {
    AcceptsDone();
    AcceptsPaddedUpper();
  }

  lemma AcceptsDone()
    ensures IsPenTestComplete("Done")
  {
    var w: string := "Done";
    assert w[0] == 'D' && w[1] == 'o' && w[2] == 'n' && w[3] == 'e';
    assert [] + w + [] == w;
    AcceptsPadded(w, [], w, []);
  }

  lemma AcceptsPaddedUpper()
    ensures IsPenTestComplete(" DONE\n")
  {
    var w: string := "DONE";
    assert w[0] == 'D' && w[1] == 'O' && w[2] == 'N' && w[3] == 'E';
    var m := [' '] + w + ['\n'];
    assert m == " DONE\n";
    AcceptsPadded(m, [' '], w, ['\n']);
  }

  lemma AcceptsPadded(m: string, a: string, w: string, b: string)
    requires m == a + w + b && AllIn(a, Whitespace) && AllIn(b, Whitespace)
    requires |w| == 4 && w[0] in "dD" && w[1] in "oO" && w[2] in "nN" && w[3] in "eE"
    ensures IsPenTestComplete(m)
  {
    StripOfPadded(a, w, b, Whitespace);
    DoneWord(w);
  }

  lemma DoneWord(w: string)
    requires |w| == 4 && w[0] in "dD" && w[1] in "oO" && w[2] in "nN" && w[3] in "eE"
    ensures Lower(w) == "done"
  {
    var l := Lower(w);
    assert l[0] == 'd' && l[1] == 'o' && l[2] == 'n' && l[3] == 'e';
  }

  /** ... but anything else next to the word does. */
  lemma PenTestCompleteRejects()
    ensures !IsPenTestComplete("done.") && !IsPenTestComplete("not done")
  {
    NoPaddingLength("done.");
    NoPaddingLength("not done");
  }

  /** A reply that neither starts nor ends with whitespace and is not four letters long
      is rejected. */
  lemma NoPaddingLength(m: string)
    requires m != [] && !IsSpace(m[0]) && !IsSpace(m[|m| - 1]) && |m| != 4
    ensures !IsPenTestComplete(m)
  {
    StripOfPadded([], m, [], Whitespace);
    assert [] + m + [] == m;
    assert |Lower(Trim(m))| == |m|;
  }

  /** The guard `if message.assistant_id and message.content`: an assistant id that is
      neither None nor empty, and at least one content part. */
  predicate Qualifies(m: Message) {
    m.assistantId.Some? && m.assistantId.value != [] && m.content != []
  }

  /** The command text (`content[0].text.value`) of every message passing the guard,
      in thread order. */
  function Commands(msgs: seq<Message>): (cmds: seq<string>)
    ensures |cmds| <= |msgs|
    decreases |msgs|
  {
    if msgs == [] then []
    else if Qualifies(msgs[0]) then [msgs[0].content[0]] + Commands(msgs[1..])
    else Commands(msgs[1..])
  }

  predicate NoDup<T(==)>(s: seq<T>) {
    forall i, j :: 0 <= i < j < |s| ==> s[i] != s[j]
  }

  /** Where `x` first occurs in `s`. */
  function FirstIndex<T(==)>(s: seq<T>, x: T): (i: nat)
    requires x in s
    ensures i < |s| && s[i] == x && forall k :: 0 <= k < i ==> s[k] != x
    decreases |s|
  {
    if s[0] == x then 0 else FirstIndex(s[1..], x) + 1
  }

  /** What the `if command not in executed_commands: executed_commands.append(command)`
      pattern runs, given the commands already recorded in `seen`. */
  function NewCommands(seen: seq<string>, cmds: seq<string>): (ran: seq<string>)
    ensures NoDup(seen) ==> NoDup(seen + ran)
    ensures forall c :: c in ran ==> c in cmds && c !in seen
    ensures forall c :: c in cmds ==> c in seen + ran
    decreases |cmds|
  {
    if cmds == [] then []
    else if cmds[0] in seen then NewCommands(seen, cmds[1..])
    else
      var rest := NewCommands(seen + [cmds[0]], cmds[1..]);
      assert seen + [cmds[0]] + rest == seen + ([cmds[0]] + rest);
      [cmds[0]] + rest
  }

  /** Each command runs at most once: what `NewCommands` returns is a subsequence of
      the input that repeats nothing. */
  lemma {:induction false} NewCommandsOrder(seen: seq<string>, cmds: seq<string>)
    ensures IsSubsequence(NewCommands(seen, cmds), cmds)
    ensures NoDup(NewCommands(seen, cmds))
    decreases |cmds|
  {
    if cmds != [] {
      if cmds[0] in seen {
        NewCommandsOrder(seen, cmds[1..]);
      } else {
        var rest := NewCommands(seen + [cmds[0]], cmds[1..]);
        NewCommandsOrder(seen + [cmds[0]], cmds[1..]);
        assert ([cmds[0]] + rest)[1..] == rest;
        assert cmds[0] !in rest;
      }
    }
  }

  /** A command other than the first occurs first one place later than in the tail. */
  lemma FirstIndexShift(cmds: seq<string>, x: string)
    requires cmds != [] && x in cmds[1..] && x != cmds[0]
    ensures x in cmds && FirstIndex(cmds, x) == FirstIndex(cmds[1..], x) + 1
  {
    assert cmds[1..] == cmds[1..];
  }

  /** Every command of `ran` occurs in `cmds`, and their first occurrences there come
      in the order of `ran`. */
  predicate FirstSeenOrder(cmds: seq<string>, ran: seq<string>) {
    forall i, j :: 0 <= i < j < |ran| ==>
      ran[i] in cmds && ran[j] in cmds && FirstIndex(cmds, ran[i]) < FirstIndex(cmds, ran[j])
  }

  /** Putting the first command in front of commands that first occur in the tail in
      order, or leaving it out, keeps them in order of first occurrence. */
  lemma FirstIndexCons(cmds: seq<string>, rest: seq<string>, ran: seq<string>)
    requires cmds != []
    requires forall k :: 0 <= k < |rest| ==> rest[k] in cmds[1..] && rest[k] != cmds[0]
    requires FirstSeenOrder(cmds[1..], rest)
    requires ran == rest || ran == [cmds[0]] + rest
    ensures FirstSeenOrder(cmds, ran)
  {
    var d := |ran| - |rest|;
    forall i, j | 0 <= i < j < |ran|
      ensures ran[i] in cmds && ran[j] in cmds && FirstIndex(cmds, ran[i]) < FirstIndex(cmds, ran[j])
    {
      var y := rest[j - d];
      assert ran[j] == y;
      FirstIndexShift(cmds, y);
      if i < d {
        assert ran[i] == cmds[0];
      } else {
        var x := rest[i - d];
        assert ran[i] == x;
        FirstIndexShift(cmds, x);
      }
    }
  }

  /** ... and the commands run first occur in the input in the order they are run, so
      `executed_commands` grows in first-seen order. */
  lemma {:induction false} NewCommandsFirstSeen(seen: seq<string>, cmds: seq<string>)
    ensures FirstSeenOrder(cmds, NewCommands(seen, cmds))
    decreases |cmds|
  {
    if cmds != [] {
      var c := cmds[0];
      var seen' := if c in seen then seen else seen + [c];
      var rest := NewCommands(seen', cmds[1..]);
      NewCommandsFirstSeen(seen', cmds[1..]);
      assert c in seen';
      assert forall k :: 0 <= k < |rest| ==> rest[k] in cmds[1..] && rest[k] != c;
      assert NewCommands(seen, cmds) == rest || NewCommands(seen, cmds) == [c] + rest;
      FirstIndexCons(cmds, rest, NewCommands(seen, cmds));
    }
  }

  datatype BatchEnd =
    | Continue   // every message of the page was handled
    | Complete   // `is_pen_test_complete(command)` held: `main` returns
    | Crashed    // `execute_command` raised IndexError at `command.split()[0]`

  /** What one pass over a page's commands did: the commands run (each also appended
      to `executed_commands`), how many commands were looked at, and how it ended. */
  datatype Batch = Batch(ran: seq<string>, consumed: nat, end: BatchEnd)

  /** A command executed when it is seen for the first time; an all-whitespace one
      makes `execute_command` raise, and nothing in `main` catches that. */
  predicate CrashesAt(seen: seq<string>, cmds: seq<string>, i: nat)
    requires i < |cmds|
  {
    cmds[i] !in seen + cmds[..i] && AllIn(cmds[i], Whitespace)
  }

  predicate StopsAt(seen: seq<string>, cmds: seq<string>, i: nat, stopOnDone: bool)
    requires i < |cmds|
  {
    CrashesAt(seen, cmds, i) || (stopOnDone && IsPenTestComplete(cmds[i]))
  }

  /** How looking at command `c` ends, `seen` being `executed_commands` before it: a
      new all-whitespace command crashes `execute_command`; otherwise, with
      `stopOnDone`, a "done" reply completes the test; otherwise the pass goes on. */
  function Verdict(seen: seq<string>, c: string, stopOnDone: bool): BatchEnd {
    if c !in seen && FirstToken(c).None? then Crashed
    else if stopOnDone && IsPenTestComplete(c) then Complete
    else Continue
  }

  /** The `for message in ...` loop over the commands of a page, `seen` being
      `executed_commands` before it. With `stopOnDone` the completion test follows every
      command, whether it was just run or had been run before. */
  function RunBatch(seen: seq<string>, cmds: seq<string>, stopOnDone: bool): (b: Batch)
    ensures b.consumed <= |cmds|
    decreases |cmds|
  {
    if cmds == [] then Batch([], 0, Continue)
    else
      var c := cmds[0];
      var isNew := c !in seen;
      var now := if isNew then [c] else [];
      var v := Verdict(seen, c, stopOnDone);
      if v != Continue then Batch(now, 1, v)
      else
        var rest := RunBatch(After(seen, c), cmds[1..], stopOnDone);
        Batch(now + rest.ran, rest.consumed + 1, rest.end)
  }

  /** The command after `cmds[0]` has been looked at: what `executed_commands` holds. */
  function After(seen: seq<string>, c: string): seq<string> {
    if c !in seen then seen + [c] else seen
  }

  /** Whether the first command stops the pass, unfolded. */
  lemma StopsAtFirst(seen: seq<string>, cmds: seq<string>, stopOnDone: bool)
    requires cmds != []
    ensures CrashesAt(seen, cmds, 0) <==> cmds[0] !in seen && FirstToken(cmds[0]).None?
    ensures StopsAt(seen, cmds, 0, stopOnDone) <==>
      CrashesAt(seen, cmds, 0) || (stopOnDone && IsPenTestComplete(cmds[0]))
  {
    assert seen + cmds[..0] == seen;
    FirstTokenExists(cmds[0]);
  }

  /** A first command that does not stop the pass: the pass goes on with the rest. */
  lemma BatchStep(seen: seq<string>, cmds: seq<string>, stopOnDone: bool)
    requires cmds != [] && !StopsAt(seen, cmds, 0, stopOnDone)
    ensures var rest := RunBatch(After(seen, cmds[0]), cmds[1..], stopOnDone);
      RunBatch(seen, cmds, stopOnDone) ==
        Batch((if cmds[0] !in seen then [cmds[0]] else []) + rest.ran, rest.consumed + 1, rest.end)
  {
    StopsAtFirst(seen, cmds, stopOnDone);
  }

  /** A first command that stops the pass ends it there. */
  lemma BatchStop(seen: seq<string>, cmds: seq<string>, stopOnDone: bool)
    requires cmds != [] && StopsAt(seen, cmds, 0, stopOnDone)
    ensures var b := RunBatch(seen, cmds, stopOnDone);
      b.consumed == 1 && b.end != Continue && (b.end == Crashed <==> CrashesAt(seen, cmds, 0)) &&
      b.ran == if cmds[0] !in seen then [cmds[0]] else []
  {
    StopsAtFirst(seen, cmds, stopOnDone);
  }

  lemma PrefixShift<T>(s: seq<T>, k: nat)
    requires k < |s|
    ensures s[..k + 1][0] == s[0] && s[..k + 1][1..] == s[1..][..k]
  {
  }

  /** The pass runs exactly the first occurrences among the commands it looks at. */
  lemma {:induction false} BatchRan(seen: seq<string>, cmds: seq<string>, stopOnDone: bool)
    ensures var b := RunBatch(seen, cmds, stopOnDone); b.ran == NewCommands(seen, cmds[..b.consumed])
    decreases |cmds|
  {
    if cmds != [] {
      var c := cmds[0];
      if StopsAt(seen, cmds, 0, stopOnDone) {
        BatchStop(seen, cmds, stopOnDone);
        assert cmds[..1] == [c] && [c][1..] == [];
      } else {
        BatchStep(seen, cmds, stopOnDone);
        BatchRan(After(seen, c), cmds[1..], stopOnDone);
        var k := RunBatch(After(seen, c), cmds[1..], stopOnDone).consumed;
        PrefixShift(cmds, k);
      }
    }
  }

  /** Going past a first command that does not stop the pass leaves the rest of the
      pass looking at the remaining commands with that command recorded. */
  lemma StopsAtShift(seen: seq<string>, cmds: seq<string>, i: nat, stopOnDone: bool)
    requires 1 <= i < |cmds|
    ensures CrashesAt(seen, cmds, i) == CrashesAt(After(seen, cmds[0]), cmds[1..], i - 1)
    ensures StopsAt(seen, cmds, i, stopOnDone) == StopsAt(After(seen, cmds[0]), cmds[1..], i - 1, stopOnDone)
  {
    assert cmds[..i] == [cmds[0]] + cmds[1..][..i - 1];
    assert cmds[i] in seen + cmds[..i] <==> cmds[i] in After(seen, cmds[0]) + cmds[1..][..i - 1];
    assert cmds[i] == cmds[1..][i - 1];
  }

  lemma StopsAtShiftAll(seen: seq<string>, cmds: seq<string>, stopOnDone: bool)
    requires cmds != []
    ensures forall i :: 1 <= i < |cmds| ==>
      StopsAt(seen, cmds, i, stopOnDone) == StopsAt(After(seen, cmds[0]), cmds[1..], i - 1, stopOnDone)
  {
    forall i | 1 <= i < |cmds|
      ensures StopsAt(seen, cmds, i, stopOnDone) == StopsAt(After(seen, cmds[0]), cmds[1..], i - 1, stopOnDone)
    {
      StopsAtShift(seen, cmds, i, stopOnDone);
    }
  }

  /** No command before the last one the pass looks at stops it, nor the last one when
      the pass runs on. */
  lemma {:induction false} BatchNoEarlyStop(seen: seq<string>, cmds: seq<string>, stopOnDone: bool)
    ensures var b := RunBatch(seen, cmds, stopOnDone);
      forall i :: 0 <= i < b.consumed && (i < b.consumed - 1 || b.end == Continue) ==>
        !StopsAt(seen, cmds, i, stopOnDone)
    decreases |cmds|
  {
    if cmds != [] {
      if StopsAt(seen, cmds, 0, stopOnDone) {
        BatchStop(seen, cmds, stopOnDone);
      } else {
        BatchStep(seen, cmds, stopOnDone);
        BatchNoEarlyStop(After(seen, cmds[0]), cmds[1..], stopOnDone);
        StopsAtShiftAll(seen, cmds, stopOnDone);
      }
    }
  }

  /** A pass that runs on has looked at every command. */
  lemma {:induction false} BatchRunsToEnd(seen: seq<string>, cmds: seq<string>, stopOnDone: bool)
    ensures var b := RunBatch(seen, cmds, stopOnDone); b.end == Continue ==> b.consumed == |cmds|
    decreases |cmds|
  {
    if cmds != [] {
      if StopsAt(seen, cmds, 0, stopOnDone) {
        BatchStop(seen, cmds, stopOnDone);
      } else {
        BatchStep(seen, cmds, stopOnDone);
        BatchRunsToEnd(After(seen, cmds[0]), cmds[1..], stopOnDone);
      }
    }
  }

  /** A pass that stops early stops at the last command it looks at, which crashes
      or, with `stopOnDone`, completes. */
  lemma {:induction false} BatchStopsAtLast(seen: seq<string>, cmds: seq<string>, stopOnDone: bool)
    ensures var b := RunBatch(seen, cmds, stopOnDone);
      b.end != Continue ==>
        0 < b.consumed && StopsAt(seen, cmds, b.consumed - 1, stopOnDone) &&
        (b.end == Crashed <==> CrashesAt(seen, cmds, b.consumed - 1))
    decreases |cmds|
  {
    if cmds != [] {
      if StopsAt(seen, cmds, 0, stopOnDone) {
        BatchStop(seen, cmds, stopOnDone);
      } else {
        BatchStep(seen, cmds, stopOnDone);
        var seen' := After(seen, cmds[0]);
        BatchStopsAtLast(seen', cmds[1..], stopOnDone);
        var b := RunBatch(seen', cmds[1..], stopOnDone);
        if b.end != Continue {
          StopsAtShift(seen, cmds, b.consumed, stopOnDone);
        }
      }
    }
  }

  /** The pass looks at every command of the page exactly when none of them stops it. */
  lemma BatchContinues(seen: seq<string>, cmds: seq<string>, stopOnDone: bool)
    ensures var b := RunBatch(seen, cmds, stopOnDone);
      b.end == Continue <==> forall i :: 0 <= i < |cmds| ==> !StopsAt(seen, cmds, i, stopOnDone)
  {
    BatchNoEarlyStop(seen, cmds, stopOnDone);
    BatchRunsToEnd(seen, cmds, stopOnDone);
    BatchStopsAtLast(seen, cmds, stopOnDone);
  }

  /** One message of a page, unfolded: a message that fails the guard is skipped. */
  lemma {:induction false} PageSkip(seen: seq<string>, msgs: seq<Message>, stopOnDone: bool)
    requires msgs != [] && !Qualifies(msgs[0])
    ensures RunBatch(seen, Commands(msgs), stopOnDone) == RunBatch(seen, Commands(msgs[1..]), stopOnDone)
  {
  }

  /** A message that passes the guard is the first command of the pass. */
  lemma {:induction false} PageCommand(seen: seq<string>, msgs: seq<Message>, stopOnDone: bool)
    requires msgs != [] && Qualifies(msgs[0])
    ensures RunBatch(seen, Commands(msgs), stopOnDone) ==
      RunBatch(seen, [msgs[0].content[0]] + Commands(msgs[1..]), stopOnDone)
  {
  }

  /** The first command of a pass, when it neither crashes nor completes. */
  lemma {:induction false} BatchGoesOn(seen: seq<string>, c: string, cmds: seq<string>, stopOnDone: bool)
    requires Verdict(seen, c, stopOnDone) == Continue
    ensures var b := RunBatch(seen, [c] + cmds, stopOnDone);
      var rest := RunBatch(After(seen, c), cmds, stopOnDone);
      b.ran == (if c !in seen then [c] else []) + rest.ran && b.end == rest.end
  {
    assert ([c] + cmds)[1..] == cmds;
  }

  /** One message of a page that passes the guard, handled: the pass either ends
      there or goes on with the rest of the page, the command recorded. */
  lemma {:induction false} PageHandled(seen: seq<string>, msgs: seq<Message>, stopOnDone: bool, now: seq<string>, end: BatchEnd)
    requires msgs != [] && Qualifies(msgs[0])
    requires var c := msgs[0].content[0];
      now == (if c !in seen then [c] else []) &&
      end == Verdict(seen, c, stopOnDone)
    ensures var b := RunBatch(seen, Commands(msgs), stopOnDone);
      (end != Continue ==> b.ran == now && b.end == end) &&
      (end == Continue ==>
        var rest := RunBatch(After(seen, msgs[0].content[0]), Commands(msgs[1..]), stopOnDone);
        b.ran == now + rest.ran && b.end == rest.end)
  {
    var c := msgs[0].content[0];
    PageCommand(seen, msgs, stopOnDone);
    if end == Continue {
      BatchGoesOn(seen, c, Commands(msgs[1..]), stopOnDone);
    } else {
      assert now + [] == now;
    }
  }

  /** The page loop's invariant carried over one message that passes the guard:
      `seen` is `executed_commands` before it, `ran0` what the page has run so far. */
  lemma {:induction false} PageInvariantStep(seen: seq<string>, ran0: seq<string>, total: Batch,
                                             rest: seq<Message>, stopOnDone: bool, now: seq<string>, end: BatchEnd)
    requires rest != [] && Qualifies(rest[0])
    requires var c := rest[0].content[0];
      now == (if c !in seen then [c] else []) && end == Verdict(seen, c, stopOnDone)
    requires var b := RunBatch(seen, Commands(rest), stopOnDone);
      total.ran == ran0 + b.ran && total.end == b.end
    ensures end == Continue ==>
      var b := RunBatch(seen + now, Commands(rest[1..]), stopOnDone);
      total.ran == (ran0 + now) + b.ran && total.end == b.end
    ensures end != Continue ==> total.ran == ran0 + now && total.end == end
  {
    var c := rest[0].content[0];
    PageHandled(seen, rest, stopOnDone, now, end);
    if end == Continue {
      assert After(seen, c) == seen + now;
      ConcatAssoc(ran0, now, RunBatch(seen + now, Commands(rest[1..]), stopOnDone).ran);
    }
  }

  /** The module-level `executed_commands` list, and the loop both conversation drivers
      run over a page of messages. */
  class CommandLog {
    var executed: seq<string>

    ghost predicate Valid()
      reads this
    {
      NoDup(executed)
    }

    constructor ()
      ensures Valid() && executed == []
    {
      executed := [];
    }

    /** One command that passed the guard: appended and executed when it is new,
        then, with `stopOnDone`, tested for completion. */
    method Handle(command: string, stopOnDone: bool) returns (now: seq<string>, end: BatchEnd)
      requires Valid()
      modifies this
      ensures Valid()
      ensures now == (if command !in old(executed) then [command] else [])
      ensures executed == old(executed) + now
      ensures end == Verdict(old(executed), command, stopOnDone)
    {
      now := [];
      end := Continue;
      if command !in executed {
        executed := executed + [command];
        now := [command];
        if FirstToken(command).None? {
          end := Crashed;
          return;
        }
      }
      if stopOnDone && IsPenTestComplete(command) {
        end := Complete;
      }
    }

    /** `for message in ...: if message.assistant_id and message.content: ...`, over a
        page of messages; a command whose execution raises ends the page, and so does
        completion when `stopOnDone`. */
    method ProcessPage(msgs: seq<Message>, stopOnDone: bool) returns (ran: seq<string>, end: BatchEnd)
      requires Valid()
      modifies this
      ensures Valid()
      ensures executed == old(executed) + ran
      ensures var b := RunBatch(old(executed), Commands(msgs), stopOnDone); ran == b.ran && end == b.end
    {
      ghost var seen0 := executed;
      ghost var total := RunBatch(executed, Commands(msgs), stopOnDone);
      ran := [];
      end := Continue;
      var i := 0;
      while i < |msgs| && end == Continue
        invariant 0 <= i <= |msgs|
        invariant Valid() && executed == seen0 + ran
        invariant end == Continue ==>
          var b := RunBatch(executed, Commands(msgs[i..]), stopOnDone);
          total.ran == ran + b.ran && total.end == b.end
        invariant end != Continue ==> total.ran == ran && total.end == end
      {
        var m := msgs[i];
        ghost var rest := msgs[i..];
        assert rest[0] == m && rest[1..] == msgs[i + 1..];
        if m.assistantId.Some? && m.assistantId.value != [] && m.content != [] {
          var command := m.content[0];
          ghost var ran0 := ran;
          var now;
          now, end := Handle(command, stopOnDone);
          PageInvariantStep(seen0 + ran0, ran0, total, rest, stopOnDone, now, end);
          ran := ran + now;
          ConcatAssoc(seen0, ran0, now);
        } else {
          PageSkip(executed, rest, stopOnDone);
        }
        i := i + 1;
      }
      if end == Continue {
        assert msgs[i..] == [];
        assert ran + [] == ran;
      }
    }
  }
}
