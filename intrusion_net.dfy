/** `execute_command` of IntrusionNet.py: spawn the command, wait once for end of output
    or one of the two prompts, and post exactly one message to the thread. */
module IntrusionNet {
  import opened Text
  import opened Ansi
  import opened Outcomes

  const TimedOutMessage: string := "Command has timed out."
  const NotFoundMessage: string :=
    "Command was not found or was not executable. Please provide commands only."

  /** The one message posted, given whether `pexpect.spawn` succeeded and what the single
      `expect` call reported. */
  function PostedMessage(spawned: bool, r: ExpectResult): string {
    if !spawned then NotFoundMessage
    else match r
      case Eof(before) => Strip(before)
      case MsfPrompt(before, after) => Strip(before + after)
      case ShellOpened(before, after) => Strip(before + after)
      case Timeout => TimedOutMessage
  }

  /** The captured text reaches the thread stripped of escape sequences, so with
      characters only deleted, and verbatim when it holds no ESC; both prompts are
      treated alike; a failure is reported with one of the two fixed messages. */
  lemma PostedMessageSpec(spawned: bool, r: ExpectResult)
    ensures var m := PostedMessage(spawned, r);
      (!spawned ==> m == NotFoundMessage) &&
      (spawned && r.Timeout? ==> m == TimedOutMessage) &&
      (spawned && r.Eof? ==> m == Strip(r.before) && IsSubsequence(m, r.before) && (ESC !in r.before ==> m == r.before)) &&
      (spawned && IsPrompt(r) ==>
        m == Strip(r.before + r.after) && IsSubsequence(m, r.before + r.after) &&
        (ESC !in r.before + r.after ==> m == r.before + r.after) &&
        m == PostedMessage(true, MsfPrompt(r.before, r.after)))
  {
    if spawned {
      match r
      case Eof(before) =>
        StripSubsequence(before);
        if ESC !in before { StripEscFree(before); }
      case MsfPrompt(before, after) =>
        StripSubsequence(before + after);
        if ESC !in before + after { StripEscFree(before + after); }
      case ShellOpened(before, after) =>
        StripSubsequence(before + after);
        if ESC !in before + after { StripEscFree(before + after); }
      case Timeout =>
    }
  }
}
