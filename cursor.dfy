/** main2.py: the read cursor `pos_of_last_read_message` that `send_message` and
    `get_assistant_response` keep over the thread's message list, and the idle and
    interactive bookkeeping of the `execute_command` poll loop. The thread's list is
    handed in as a value; posting and listing messages are the environment. */
module Cursor {
  import opened Messages

  /** What `get_assistant_response` returns: the sentinel string "No new messages." or
      a (possibly empty) list of messages. */
  datatype Reply = NoNewMessages | NewMessages(msgs: seq<Message>)

  /** The reply and the new cursor for a cursor `pos` over the list `data`. Python's
      `data[pos + 1:]` is empty once `pos + 1` is past the end. */
  function Fetch(pos: int, data: seq<Message>): (r: (Reply, int))
    requires pos >= -1
    ensures r.1 == |data| - 1
    ensures r.0 == NoNewMessages <==> pos == |data| - 1
  {
    if pos == |data| - 1 then (NoNewMessages, pos)
    else (NewMessages(if pos + 1 <= |data| then data[pos + 1..] else []), |data| - 1)
  }

  /** Reading twice without the list changing: the second read reports nothing new. */
  lemma FetchSettles(pos: int, data: seq<Message>)
    requires pos >= -1
    ensures Fetch(Fetch(pos, data).1, data).0 == NoNewMessages
  {
  }

  /** A cursor at or before the end returns exactly the messages after it; a cursor
      beyond the end returns the empty list, not the sentinel, and moves back down. */
  lemma FetchReturns(pos: int, data: seq<Message>)
    requires pos >= -1 && pos != |data| - 1
    ensures pos < |data| ==>
      (Fetch(pos, data).0 == NewMessages(data[pos + 1..]) &&
       data == data[..pos + 1] + Fetch(pos, data).0.msgs)
    ensures pos >= |data| ==> Fetch(pos, data).0 == NewMessages([]) && Fetch(pos, data).1 < pos
  {
    if pos < |data| {
      assert data == data[..pos + 1] + data[pos + 1..];
    }
  }

  /** What the cursor is for: after a read of `data`, the program posts `own` messages
      (each `send_message` adding one to the cursor) and the assistant then appends
      `replies`. With messages appended in that order, the next read skips the program's
      own messages and returns exactly the replies, or the sentinel when there are none. */
  lemma {:induction false} CursorSkipsOwnMessages(data: seq<Message>, own: seq<Message>, replies: seq<Message>)
    ensures var pos := Fetch(-1, data).1 + |own|;
      pos >= -1 &&
      Fetch(pos, data + own + replies).0 == if replies == [] then NoNewMessages else NewMessages(replies)
  {
    var all := data + own + replies;
    var pos := |data| - 1 + |own|;
    if replies != [] {
      assert all[pos + 1..] == replies;
    }
  }

  /** `s` back to front. */
  function Reverse<T>(s: seq<T>): (r: seq<T>)
    ensures |r| == |s| && forall i :: 0 <= i < |s| ==> r[i] == s[|s| - 1 - i]
  {
    seq(|s|, i requires 0 <= i < |s| => s[|s| - 1 - i])
  }

  /** The cursor only counts positions, so it depends on the order of the listing. If
      the listing comes newest first, the same read after `own` posts and `replies`
      returns the oldest messages of the thread, back to front, and not the replies. */
  lemma CursorNewestFirst(data: seq<Message>, own: seq<Message>, replies: seq<Message>)
    requires replies != []
    ensures var all := data + own + replies;
      var pos := Fetch(-1, Reverse(data)).1 + |own|;
      pos >= -1 &&
      Fetch(pos, Reverse(all)).0 == NewMessages(Reverse(all[..|replies|]))
  {
    var all := data + own + replies;
    var pos := |data| - 1 + |own|;
    var k := |replies|;
    assert Reverse(all)[pos + 1..] == Reverse(all[..k]);
  }

  /** The module-level cursor of main2.py. */
  class Session {
    var pos: int

    ghost predicate Valid()
      reads this
    {
      pos >= -1
    }

    /** `pos_of_last_read_message = -1` at import. */
    constructor ()
      ensures Valid() && pos == -1
    {
      pos := -1;
    }

    /** `send_message`: the cursor advances by one for the message posted. */
    method SendMessage()
      requires Valid()
      modifies this
      ensures Valid() && pos == old(pos) + 1
    {
      pos := pos + 1;
    }

    /** `get_assistant_response` over the listed messages `data`. */
    method GetAssistantResponse(data: seq<Message>) returns (r: Reply)
      requires Valid()
      modifies this
      ensures Valid()
      ensures (r, pos) == Fetch(old(pos), data)
    {
      var total := |data|;
      if pos == total - 1 {
        return NoNewMessages;
      }
      var newMessages := if pos + 1 <= total then data[pos + 1..] else [];
      pos := total - 1;
      r := NewMessages(newMessages);
    }
  }

  /** One pass of the `while True` poll loop: the text each readable stream gave (empty
      when it was not readable or gave nothing), the clock read when output is seen
      (line 107), the clock read for the idle test (line 110), and whether
      `process.poll()` then reports the process finished. */
  datatype PollCycle = PollCycle(stdout: string, stderr: string, stamp: nat, check: nat, exited: bool)

  const InteractionTimeout: nat := 2

  predicate HasOutput(c: PollCycle) {
    c.stdout != [] || c.stderr != []
  }

  /** The value of `last_output_time` after the cycles `cs`, starting from `start`. */
  function LastOutputTime(start: nat, cs: seq<PollCycle>): nat
    decreases |cs|
  {
    if cs == [] then start
    else if HasOutput(cs[|cs| - 1]) then cs[|cs| - 1].stamp
    else LastOutputTime(start, cs[..|cs| - 1])
  }

  /** With no output in any cycle, the idle timer still holds the start time. */
  lemma {:induction false} LastOutputTimeQuiet(start: nat, cs: seq<PollCycle>)
    requires forall i :: 0 <= i < |cs| ==> !HasOutput(cs[i])
    ensures LastOutputTime(start, cs) == start
    decreases |cs|
  {
    if cs != [] {
      var init := cs[..|cs| - 1];
      assert forall i :: 0 <= i < |init| ==> init[i] == cs[i];
      LastOutputTimeQuiet(start, init);
    }
  }

  /** Otherwise it holds the stamp of the last cycle that produced output: the timer is
      reset exactly on cycles with output. */
  lemma {:induction false} LastOutputTimeReset(start: nat, cs: seq<PollCycle>, j: nat)
    requires j < |cs| && HasOutput(cs[j])
    requires forall k :: j < k < |cs| ==> !HasOutput(cs[k])
    ensures LastOutputTime(start, cs) == cs[j].stamp
    decreases |cs|
  {
    if j < |cs| - 1 {
      var init := cs[..|cs| - 1];
      assert forall i :: 0 <= i < |init| ==> init[i] == cs[i];
      LastOutputTimeReset(start, init, j);
    }
  }

  /** True when the idle test of cycle `i` fires: more than two seconds since the last
      output, counting the output of cycle `i` itself. */
  predicate IdleAt(start: nat, cycles: seq<PollCycle>, i: nat)
    requires i < |cycles|
  {
    cycles[i].check - LastOutputTime(start, cycles[..i + 1]) > InteractionTimeout
  }

  /** The poll loop of `execute_command`, `start` being the clock read before it. It
      returns the final `interactive` and `last_output_time` and how many cycles ran. */
  method PollLoop(start: nat, cycles: seq<PollCycle>) returns (interactive: bool, lastOutput: nat, ran: nat)
    ensures ran <= |cycles|
    ensures forall i :: 0 <= i < ran - 1 ==> !cycles[i].exited
    ensures ran == |cycles| || (0 < ran && cycles[ran - 1].exited)
    ensures lastOutput == LastOutputTime(start, cycles[..ran])
    ensures interactive <==> exists i :: 0 <= i < ran && IdleAt(start, cycles, i)
  {
    interactive := false;
    lastOutput := start;
    ran := 0;
    var done := false;
    while !done && ran < |cycles|
      invariant 0 <= ran <= |cycles|
      invariant forall i :: 0 <= i < ran - 1 ==> !cycles[i].exited
      invariant !done ==> forall i :: 0 <= i < ran ==> !cycles[i].exited
      invariant done ==> 0 < ran && cycles[ran - 1].exited
      invariant lastOutput == LastOutputTime(start, cycles[..ran])
      invariant interactive <==> exists i :: 0 <= i < ran && IdleAt(start, cycles, i)
      decreases |cycles| - ran, if done then 0 else 1
    {
      var c := cycles[ran];
      assert cycles[..ran + 1][..ran] == cycles[..ran];
      var outputReceived := false;
      if c.stdout != [] {
        outputReceived := true;
      }
      if c.stderr != [] {
        outputReceived := true;
      }
      if outputReceived {
        lastOutput := c.stamp;
      }
      if !interactive && c.check - lastOutput > InteractionTimeout {
        interactive := true;
      }
      assert IdleAt(start, cycles, ran) <==> c.check - lastOutput > InteractionTimeout;
      if c.exited {
        done := true;
      }
      ran := ran + 1;
    }
  }
}
