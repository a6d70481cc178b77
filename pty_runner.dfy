/** Python/main2.py: the read loop of `execute_command` over a pseudo-terminal. Each
    chunk read is stripped of escape sequences on its own and written to the result
    file; a quiet poll may switch the run to interactive, and an end-of-file poll ends
    it. The process and the clock are the environment: one cycle per loop pass. */
module PtyRunner {
  import opened Ansi

  /** One pass of the `while True` loop: the process is no longer alive; or `select`
      reported the descriptor readable and `read()` gave `text`; or nothing was ready,
      the clock read `now` and `eof()` answered `atEof`. */
  datatype PtyCycle = Dead | Chunk(text: string) | Quiet(now: nat, atEof: bool)

  const InteractionTimeout: nat := 60

  /** The texts of the chunk cycles, in order. */
  function Chunks(cs: seq<PtyCycle>): (r: seq<string>)
    ensures |r| <= |cs|
    decreases |cs|
  {
    if cs == [] then []
    else Chunks(cs[..|cs| - 1]) + (if cs[|cs| - 1].Chunk? then [cs[|cs| - 1].text] else [])
  }

  /** A quiet cycle more than 60 s after the loop began. `last_output_time` is set once
      before the loop and never again, so output does not move this point. */
  predicate LateQuiet(start: nat, c: PtyCycle) {
    c.Quiet? && c.now - start > InteractionTimeout
  }

  predicate InteractiveBefore(start: nat, cs: seq<PtyCycle>, n: nat)
    requires n <= |cs|
  {
    exists k :: 0 <= k < n && LateQuiet(start, cs[k])
  }

  /** Cycle `i` ends the loop: the process is gone, or the poll was quiet at end of file
      and the `elif` for the interactive switch did not take it first. */
  predicate StopsAt(start: nat, cs: seq<PtyCycle>, i: nat)
    requires i < |cs|
  {
    cs[i].Dead? ||
    (cs[i].Quiet? && cs[i].atEof && (InteractiveBefore(start, cs, i) || !LateQuiet(start, cs[i])))
  }

  /** One more cycle: its chunk, if any, joins the list. */
  lemma ChunksStep(cs: seq<PtyCycle>, n: nat)
    requires n < |cs|
    ensures Chunks(cs[..n + 1]) == Chunks(cs[..n]) + (if cs[n].Chunk? then [cs[n].text] else [])
  {
    assert cs[..n + 1][..n] == cs[..n];
  }

  /** One more cycle: the run is interactive after it exactly when it was before or the
      cycle is a late quiet poll. */
  lemma InteractiveStep(start: nat, cs: seq<PtyCycle>, n: nat)
    requires n < |cs|
    ensures InteractiveBefore(start, cs, n + 1) <==>
      InteractiveBefore(start, cs, n) || LateQuiet(start, cs[n])
  {
    if InteractiveBefore(start, cs, n + 1) && !LateQuiet(start, cs[n]) {
      var k :| 0 <= k < n + 1 && LateQuiet(start, cs[k]);
      assert k < n;
    }
  }

  /** What the file holds after one more cycle. */
  lemma WrittenStep(cs: seq<PtyCycle>, n: nat)
    requires n < |cs|
    ensures StripEach(Chunks(cs[..n + 1])) ==
      StripEach(Chunks(cs[..n])) + (if cs[n].Chunk? then Strip(cs[n].text) else [])
  {
    ChunksStep(cs, n);
    var chunks := Chunks(cs[..n]);
    if cs[n].Chunk? {
      assert (chunks + [cs[n].text])[..|chunks|] == chunks;
    } else {
      assert chunks + [] == chunks;
    }
  }

  /** The loop, `start` being `last_output_time`. It returns what was written to the
      file, the final `interactive` and how many cycles ran. */
  method ReadLoop(start: nat, cycles: seq<PtyCycle>) returns (written: string, interactive: bool, ran: nat)
    ensures ran <= |cycles|
    ensures forall i :: 0 <= i < ran - 1 ==> !StopsAt(start, cycles, i)
    ensures ran == |cycles| || (0 < ran && StopsAt(start, cycles, ran - 1))
    ensures written == StripEach(Chunks(cycles[..ran]))
    ensures interactive <==> InteractiveBefore(start, cycles, ran)
  {
    written := [];
    interactive := false;
    ran := 0;
    var done := false;
    while !done && ran < |cycles|
      invariant 0 <= ran <= |cycles|
      invariant forall i :: 0 <= i < ran - 1 ==> !StopsAt(start, cycles, i)
      invariant !done ==> forall i :: 0 <= i < ran ==> !StopsAt(start, cycles, i)
      invariant done ==> 0 < ran && StopsAt(start, cycles, ran - 1)
      invariant written == StripEach(Chunks(cycles[..ran]))
      invariant interactive <==> InteractiveBefore(start, cycles, ran)
      decreases |cycles| - ran, if done then 0 else 1
    {
      var c := cycles[ran];
      WrittenStep(cycles, ran);
      InteractiveStep(start, cycles, ran);
      match c {
        case Dead =>
          done := true;
        case Chunk(text) =>
          var cleaned := Strip(text);
          written := written + cleaned;
        case Quiet(now, atEof) =>
          if !interactive && now - start > InteractionTimeout {
            interactive := true;
          } else if atEof {
            done := true;
          }
      }
      if !c.Chunk? {
        assert written + [] == written;
      }
      ran := ran + 1;
    }
  }

  /** An extra chunk anywhere before the point of interest changes nothing about when
      the run turns interactive: output never postpones the 60 s cutoff. */
  lemma ChunkKeepsCutoff(start: nat, cs: seq<PtyCycle>, i: nat, n: nat, text: string)
    requires i <= n <= |cs|
    ensures var more := cs[..i] + [Chunk(text)] + cs[i..];
      InteractiveBefore(start, more, n + 1) == InteractiveBefore(start, cs, n)
  {
    var more := cs[..i] + [Chunk(text)] + cs[i..];
    assert forall k :: 0 <= k < i ==> more[k] == cs[k];
    assert forall k :: i < k <= |cs| ==> more[k] == cs[k - 1];
    if InteractiveBefore(start, cs, n) {
      var k :| 0 <= k < n && LateQuiet(start, cs[k]);
      var k' := if k < i then k else k + 1;
      assert more[k'] == cs[k];
    }
    if InteractiveBefore(start, more, n + 1) {
      var k :| 0 <= k < n + 1 && LateQuiet(start, more[k]);
      assert k != i;
      var k' := if k < i then k else k - 1;
      assert cs[k'] == more[k];
    }
  }
}
