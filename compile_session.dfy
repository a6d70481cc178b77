/** Python/compile.py: the apostrophe trim of `get_assistant_response`, the interactive
    `execute_command` loop over expect outcomes, and the decision `main` takes on each
    reply. Posting to the thread and asking the assistant are the environment: posted
    messages are an output sequence and the assistant's replies an input sequence. */
module Compile {
  import opened Text
  import opened Ansi
  import opened Outcomes
  import opened Messages

  /** `execute_command` exits the program when handed this command. */
  const ExitCommand: string := "Penetration test is complete."
  /** `main` skips execution on this reply (a different phrase from `ExitCommand`). */
  const SkipReply: string := "Penetration Test Completed"
  const ExecutedPrefix: string := "Command has been executed. "

  /** `s.strip("'''")`: the argument is a character set, so it is one apostrophe. */
  function TrimQuotes(s: string): string {
    StripOf(s, {'\''})
  }

  /** Every leading and every trailing apostrophe goes, however many there are; what
      is between, apostrophes and whitespace included, is kept. */
  lemma TrimQuotesSpec(q1: string, w: string, q2: string)
    requires AllIn(q1, {'\''}) && AllIn(q2, {'\''})
    requires w != [] && w[0] != '\'' && w[|w| - 1] != '\''
    ensures TrimQuotes(q1 + w + q2) == w
  {
    StripOfPadded(q1, w, q2, {'\''});
  }

  /** A reply that is only apostrophes trims to nothing. */
  lemma TrimQuotesAllQuotes(s: string)
    requires AllIn(s, {'\''})
    ensures TrimQuotes(s) == []
  {
  }

  /** `get_assistant_response`: the newest message of the page (`limit=1, order="desc"`),
      None when there is no message or it has no content part. */
  function LatestReply(page: seq<Message>): Option<string> {
    if page == [] || page[0].content == [] then None
    else Some(TrimQuotes(page[0].content[0]))
  }

  /** The reply is the first content part of the newest message with its apostrophes
      trimmed: a slice of that part with only apostrophes before and after it, and
      neither starting nor ending with one. This pins it down: when it is empty the part
      is all apostrophes. */
  lemma LatestReplySpec(page: seq<Message>) returns (i: nat)
    ensures LatestReply(page).None? <==> page == [] || page[0].content == []
    ensures LatestReply(page).Some? ==>
      var part, r := page[0].content[0], LatestReply(page).value;
      (r == [] || (r[0] != '\'' && r[|r| - 1] != '\'')) &&
      i + |r| <= |part| && part[i..i + |r|] == r &&
      AllIn(part[..i], {'\''}) && AllIn(part[i + |r|..], {'\''})
  {
    i := 0;
    if page != [] && page[0].content != [] {
      var part := page[0].content[0];
      i := StripOfSlice(part, {'\''});
      StripOfEnds(part, {'\''});
    }
  }

  datatype Action = Skip | Execute(command: string)

  /** One pass of `main`'s inner loop once the run is completed. `break` there leaves
      only the inner loop, so neither branch ends the conversation. */
  function MainStep(response: Option<string>): (a: Action)
    ensures a.Execute? <==> response.Some? && response.value != [] && response.value != SkipReply
    ensures a.Execute? ==> a.command == response.value
  {
    match response
    case None => Skip
    case Some(m) => if m == [] || m == SkipReply then Skip else Execute(m)
  }

  /** `main`'s skip phrase is not the phrase that makes `execute_command` exit: the
      exit phrase passes `main` and is executed, the skip phrase never reaches
      `execute_command` and the loop goes on. */
  lemma SentinelsDiffer()
    ensures MainStep(Some(ExitCommand)) == Execute(ExitCommand)
    ensures MainStep(Some(SkipReply)) == Skip
  {
    assert |ExitCommand| == 29 && |SkipReply| == 26;
  }

  datatype EndReason =
    | TestComplete   // `exit()` before spawning
    | SpawnError     // `pexpect.spawn` raised; nothing in the function catches it
    | Finished       // EOF
    | TimedOut       // pexpect.TIMEOUT
    | OutOfInput     // the modelled environment has no further outcome or reply

  datatype Trace = Trace(posted: seq<string>, sent: seq<string>, end: EndReason)

  /** What the `while True` loop does with a run of expect outcomes, the assistant
      answering the k-th prompt with `replies[k]`. */
  function Run(results: seq<ExpectResult>, replies: seq<string>): Trace
    decreases |results|
  {
    if results == [] then Trace([], [], OutOfInput)
    else match results[0]
      case Eof(before) => Trace([ExecutedPrefix + before], [], Finished)
      case Timeout => Trace([], [], TimedOut)
      case _ =>
        var out := Strip(results[0].before + results[0].after);
        if replies == [] then Trace([out], [], OutOfInput)
        else
          var t := Run(results[1..], replies[1..]);
          Trace([out] + t.posted, [replies[0]] + t.sent, t.end)
  }

  /** Length of the run of prompt outcomes at the front. */
  function PromptRun(results: seq<ExpectResult>): (n: nat)
    ensures n <= |results|
    ensures forall i :: 0 <= i < n ==> IsPrompt(results[i])
    ensures n < |results| ==> !IsPrompt(results[n])
    decreases |results|
  {
    if results != [] && IsPrompt(results[0]) then 1 + PromptRun(results[1..]) else 0
  }

  function PromptOutput(r: ExpectResult): string
    requires IsPrompt(r)
  {
    Strip(r.before + r.after)
  }

  /** How many prompts are answered before the loop stops. */
  function Answered(results: seq<ExpectResult>, replies: seq<string>): (n: nat)
    ensures n <= PromptRun(results) && n <= |replies|
  {
    if PromptRun(results) <= |replies| then PromptRun(results) else |replies|
  }

  /** The loop, stated without recursion, in three parts. First: with n prompts
      answered, exactly the first n replies are sent, in order, and the n stripped
      prompt outputs are the first n posts, followed by at most one more. */
  lemma {:induction false} RunPrompts(results: seq<ExpectResult>, replies: seq<string>)
    ensures var t := Run(results, replies); var n := Answered(results, replies);
      t.sent == replies[..n] && n <= |t.posted| <= n + 1 &&
      forall i :: 0 <= i < n ==> t.posted[i] == PromptOutput(results[i])
    decreases |results|
  {
    if results != [] && IsPrompt(results[0]) && replies != [] {
      RunPrompts(results[1..], replies[1..]);
      var t1 := Run(results[1..], replies[1..]);
      var n1 := Answered(results[1..], replies[1..]);
      assert Answered(results, replies) == n1 + 1;
      assert [replies[0]] + replies[1..][..n1] == replies[..n1 + 1];
      assert forall i :: 1 <= i < |results| ==> results[i] == results[1..][i - 1];
    }
  }

  /** Second: how the loop ends. Running out of replies at a prompt posts that prompt's
      output and stops; EOF posts "Command has been executed. " + the raw, unstripped
      `before` and ends the loop; a timeout ends it without posting anything. */
  lemma {:induction false} RunEnd(results: seq<ExpectResult>, replies: seq<string>)
    ensures var t := Run(results, replies); var n := Answered(results, replies);
      (n < PromptRun(results) ==>
        t.end == OutOfInput && |t.posted| == n + 1 && t.posted[n] == PromptOutput(results[n])) &&
      (n == PromptRun(results) == |results| ==> t.end == OutOfInput && |t.posted| == n) &&
      (n == PromptRun(results) < |results| && results[n].Eof? ==>
        t.end == Finished && |t.posted| == n + 1 && t.posted[n] == ExecutedPrefix + results[n].before) &&
      (n == PromptRun(results) < |results| && results[n].Timeout? ==>
        t.end == TimedOut && |t.posted| == n)
    decreases |results|
  {
    if results != [] && IsPrompt(results[0]) && replies != [] {
      RunEnd(results[1..], replies[1..]);
      var n1 := Answered(results[1..], replies[1..]);
      assert Answered(results, replies) == n1 + 1;
      assert results[1..][n1..] == results[n1 + 1..];
    }
  }

  function AsMsf(r: ExpectResult): ExpectResult {
    if r.ShellOpened? then MsfPrompt(r.before, r.after) else r
  }

  /** Index 1 and index 2 are handled identically: reading every shell banner as a
      Metasploit prompt changes nothing. */
  lemma {:induction false} ShellLikeMsf(results: seq<ExpectResult>, replies: seq<string>)
    ensures Run(results, replies) == Run(seq(|results|, i requires 0 <= i < |results| => AsMsf(results[i])), replies)
    decreases |results|
  {
    var norm := seq(|results|, i requires 0 <= i < |results| => AsMsf(results[i]));
    if results != [] {
      var tail := seq(|results| - 1, i requires 0 <= i < |results| - 1 => AsMsf(results[1..][i]));
      assert norm[1..] == tail;
      ShellLikeMsf(results[1..], if replies == [] then [] else replies[1..]);
    }
  }

  /** `Run` from outcome `i` on, unfolded by one step. */
  lemma RunFrom(results: seq<ExpectResult>, replies: seq<string>, i: nat)
    requires i < |results| && i <= |replies|
    ensures var t := Run(results[i..], replies[i..]); var r := results[i];
      (r.Eof? ==> t == Trace([ExecutedPrefix + r.before], [], Finished)) &&
      (r.Timeout? ==> t == Trace([], [], TimedOut)) &&
      (IsPrompt(r) && i == |replies| ==> t == Trace([PromptOutput(r)], [], OutOfInput)) &&
      (IsPrompt(r) && i < |replies| ==>
        var u := Run(results[i + 1..], replies[i + 1..]);
        t == Trace([PromptOutput(r)] + u.posted, [replies[i]] + u.sent, u.end))
  {
    assert results[i..][0] == results[i] && results[i..][1..] == results[i + 1..];
    if i < |replies| {
      assert replies[i..][0] == replies[i] && replies[i..][1..] == replies[i + 1..];
    }
  }

  /** `execute_command`: the whole call, from the exit check to the end of the loop. */
  method ExecuteCommand(command: string, spawned: bool, results: seq<ExpectResult>, replies: seq<string>)
    returns (posted: seq<string>, sent: seq<string>, end: EndReason)
    ensures command == ExitCommand ==> end == TestComplete && posted == [] && sent == []
    ensures command != ExitCommand && !spawned ==> end == SpawnError && posted == [] && sent == []
    ensures command != ExitCommand && spawned ==> Trace(posted, sent, end) == Run(results, replies)
  {
    posted, sent := [], [];
    if command == ExitCommand {
      end := TestComplete;
      return;
    }
    if !spawned {
      end := SpawnError;
      return;
    }
    ghost var total := Run(results, replies);
    end := OutOfInput;
    var i := 0;
    var stopped := false;
    while !stopped && i < |results|
      invariant 0 <= i <= |results| && i <= |replies| + 1
      invariant !stopped ==> end == OutOfInput && i <= |replies|
      invariant !stopped ==>
        (var t := Run(results[i..], replies[i..]);
         total == Trace(posted + t.posted, sent + t.sent, t.end))
      invariant stopped ==> total == Trace(posted, sent, end)
      decreases |results| - i, if stopped then 0 else 1
    {
      var r := results[i];
      RunFrom(results, replies, i);
      ghost var posted0, sent0 := posted, sent;
      if r.Eof? {
        posted := posted + [ExecutedPrefix + r.before];
        end := Finished;
        stopped := true;
      } else if r.MsfPrompt? {
        var output := Strip(r.before + r.after);
        posted := posted + [output];
        if i < |replies| {
          sent := sent + [replies[i]];
          i := i + 1;
          ghost var u := Run(results[i..], replies[i..]);
          ConcatAssoc(posted0, [output], u.posted);
          ConcatAssoc(sent0, [replies[i - 1]], u.sent);
        } else {
          end := OutOfInput;
          stopped := true;
        }
      } else if r.ShellOpened? {
        var output := Strip(r.before + r.after);
        posted := posted + [output];
        if i < |replies| {
          sent := sent + [replies[i]];
          i := i + 1;
          ghost var u := Run(results[i..], replies[i..]);
          ConcatAssoc(posted0, [output], u.posted);
          ConcatAssoc(sent0, [replies[i - 1]], u.sent);
        } else {
          end := OutOfInput;
          stopped := true;
        }
      } else {
        end := TimedOut;
        stopped := true;
      }
      if stopped {
        assert sent == sent0 + [];
      }
    }
    if !stopped {
      assert results[i..] == [];
      assert posted + [] == posted && sent + [] == sent;
    }
  }
}
