# IntrusionNet: a Dafny model of the command-handling core

IntrusionNet is a set of near-duplicate Python scripts. Each one asks a language-model
assistant for penetration-testing commands, runs each command locally, captures the
output and posts it back to the conversation. The conversation API, process spawning,
sleeps and file writes are plumbing. This project models the logic between them:

- `Text` (text.dfy): the Python string primitives the scripts rely on: `str.strip()`,
  `str.strip(chars)`, `str.lower()`, `str.split()[0]`, restricted to ASCII. It also
  defines the subsequence relation.
- `Ansi` (ansi.dfy): `remove_ansi_escape_sequences`. Three identical copies exist, at
  IntrusionNet.py:103-118, Python/compile.py:109-124 and Python/main2.py:66-81. It is a
  left-to-right scanner that removes ECMA-48 two-character C1 escapes (ECMA-48 section
  5.3) and ECMA-48 control sequences (ECMA-48 section 5.4). It is proved equal to a
  grammar of what it removes.
- `Cleaner` (cleaner.dfy): `clean_assistant_response` of IntrusionNet.py, its five
  regex steps one function each.
- `Outcomes` (outcomes.dfy): what one `process.expect([EOF, msf6 prompt, shell banner])`
  call reports, as a datatype.
- `IntrusionNet` (intrusion_net.dfy): the single message `execute_command` posts.
- `Compile` (compile_session.dfy): Python/compile.py. It covers the apostrophe trim, the
  reply decision in `main` and the interactive `execute_command` loop. The loop is
  modelled over a sequence of expect outcomes and a sequence of assistant replies.
- `Messages` (messages.dfy): the assistant-id filter, the result file name and
  `is_pen_test_complete`. It also holds the `executed_commands` list as a class
  (`CommandLog`) with the page loop of backup2.py and Python/main2.py.
- `Cursor` (cursor.dfy): main2.py. This is the `pos_of_last_read_message` cursor as a
  class, and the idle/interactive bookkeeping of the `execute_command` poll loop over
  abstract poll cycles. Python/main2.py:43-46 increments the same cursor the same way.
- `PtyRunner` (pty_runner.dfy): the pseudo-terminal read loop of Python/main2.py.
- `BackupRunner` (backup_runner.dfy): the line-copy loop of backup2.py.
- `TestDriver` (test_driver.dfy): one turn of `main` in test.py and test2.py. They are
  identical in the modelled parts.

Assumptions. Whitespace is the ASCII set that Python's `str.isspace` and regex `\s`
accept: 0x09-0x0D, 0x1C-0x1F and space. Case folding is ASCII only. Time is a natural
number of seconds. I/O, the process and the conversation are input sequences: expect
outcomes, poll cycles, read events and pages of messages.

The stripper is not idempotent: `Ansi.StripNotIdempotent` exhibits ESC ESC `@` `A`.

## Model

| member | source | states |
|---|---|---|
| `Ansi.MatchSound` | IntrusionNet.py:107-116 | Every span the scanner removes is ESC plus a byte in 0x40-0x5A or 0x5C-0x5F, or ESC `[`, parameter bytes, then intermediate bytes, then one final byte. |
| `Ansi.MatchComplete` | IntrusionNet.py:107-116 | Conversely, any such sequence at the front of the text is exactly the span matched there, so the match is unique. |
| `Ansi.StripSpec` | IntrusionNet.py:103-118 | The stripper against the grammar: a leading escape sequence is removed whole, and a character that begins none is kept. |
| `Ansi.Strip` | Python/main2.py:66-81 | The output is never longer than the input. |
| `Ansi.StripEscFree` | Python/compile.py:109-124 | Text with no ESC character comes back unchanged. |
| `Ansi.StripSubsequence` | IntrusionNet.py:103-118 | The output is a subsequence of the input: characters are only deleted, never added or reordered. |
| `Ansi.StripKeepsTrailingEsc` | Python/compile.py:113-124 | A trailing ESC starts no complete sequence and is kept: strip(s + ESC) = strip(s) + ESC. |
| `Ansi.StripKeepsUnterminated` | Python/compile.py:113-124 | ESC `[1;` with no final byte is kept whole. |
| `Ansi.StripNotIdempotent` | Python/main2.py:70-81 | ESC ESC `@` `A` strips to ESC `A`, which a second pass strips to empty. |
| `Ansi.ChunkSplitSurvives` | Python/main2.py:113-117 | Stripping chunk by chunk keeps a control sequence split across two reads, which stripping the whole text removes. |
| `Cleaner.FencedBlockSpec` | IntrusionNet.py:85-88 | A fenced block is used exactly when two non-overlapping fences exist. It is the text between the first fence and the nearest fence after it. |
| `Cleaner.DropBackticksOrder` | IntrusionNet.py:91 | Without a fenced block, at most two characters are removed and the rest keeps its order. |
| `Cleaner.DropBackticksSpec` | IntrusionNet.py:91 | Exactly these characters go: index 0 when it is a backtick, and the backtick that ends the text or stands just before a final newline. Every other character stays, in order. A lone backtick, or one before a lone newline, goes once. |
| `Cleaner.DropBackticksOnlyTicks` | IntrusionNet.py:91 | Every character removed by the backtick step is a backtick (multiset equation). |
| `Cleaner.DropBackticksNoTicks` | IntrusionNet.py:91 | A reply with no backtick at the start or end, before an optional final newline, is unchanged. |
| `Cleaner.DropBackticksBeforeNewline` | IntrusionNet.py:91 | The end-anchored backtick also matches just before a final newline, and a lone backtick is removed once. |
| `Cleaner.DropBashSpec` | IntrusionNet.py:94 | `bash` is dropped exactly when it starts the text and is followed by whitespace. The result is then a suffix after whitespace. `bashrc` and `  bash ls` are kept. |
| `Cleaner.SplitEscapes` | IntrusionNet.py:97 | Every text is its pieces between backslash-n pairs, joined by backslash-n, and no piece holds one (`s.split("\\n")`). |
| `Cleaner.UnescapeJoin` | IntrusionNet.py:97 | For any pieces that hold no backslash-n, unescaping their join by backslash-n gives their join by single spaces. |
| `Cleaner.UnescapeSpec` | IntrusionNet.py:97 | The unescape step is `" ".join(s.split("\\n"))` on every input. |
| `Cleaner.Runs` | IntrusionNet.py:98 | Every text is the concatenation of its maximal runs: non-empty, each all whitespace or all other characters, neighbours of different kinds. |
| `Cleaner.CollapseRuns` | IntrusionNet.py:98 | For any cut into maximal runs, the collapse step keeps every word and every single whitespace character, and turns each whitespace run of two or more into one space. |
| `Cleaner.CollapseSpec` | IntrusionNet.py:98 | The collapse step is that run-by-run shrink on every input. |
| `Cleaner.Clean` | IntrusionNet.py:83-100 | None exactly when the command is empty after the bash step and trim. A returned command is non-empty and has no backslash-n and no whitespace run. |
| `Cleaner.CleanSpec` | IntrusionNet.py:83-100 | The returned command is the text after the fence or backtick step, the bash step and the trim, with its backslash-n pieces joined by spaces and its whitespace runs shrunk. |
| `Cleaner.CleanPlainCommand` | IntrusionNet.py:83-100 | A reply that is already a clean single command comes back unchanged. |
| `IntrusionNet.PostedMessageSpec` | IntrusionNet.py:120-151 | One message per call, fixed by the outcome. EOF posts stripped `before`. Either prompt posts stripped `before`+`after`, with both prompts handled alike. Timeout and spawn failure post their fixed texts. |
| `Compile.TrimQuotesSpec` | Python/compile.py:100 | `strip("'''")` removes any number of leading and trailing apostrophes and keeps the inside, interior apostrophes and whitespace included. |
| `Compile.TrimQuotesAllQuotes` | Python/compile.py:100 | A reply made only of apostrophes trims to the empty string. |
| `Compile.LatestReplySpec` | Python/compile.py:84-107 | A reply exists exactly when the newest message has a content part. The reply is the slice of that part with only apostrophes before and after it, and it neither starts nor ends with one. |
| `Compile.MainStep` | Python/compile.py:215-225 | A reply is executed exactly when it is non-empty and not "Penetration Test Completed". It is executed verbatim. |
| `Compile.SentinelsDiffer` | Python/compile.py:131-133 | The exit phrase "Penetration test is complete." passes `main` and is executed. `main`'s own phrase is skipped. |
| `Compile.RunPrompts` | Python/compile.py:141-195 | With n prompts answered, exactly the first n replies are sent, in order. The first n posts are the stripped prompt outputs, followed by at most one more post. |
| `Compile.RunEnd` | Python/compile.py:145-199 | EOF posts "Command has been executed. " plus the raw `before` and ends the loop. A timeout ends it without posting. Running out of replies posts that prompt's output. |
| `Compile.ShellLikeMsf` | Python/compile.py:151-195 | Index 1 and index 2 are handled identically: turning every shell banner into a Metasploit prompt leaves the trace unchanged. |
| `Compile.ExecuteCommand` | Python/compile.py:126-199 | The exit phrase stops before spawning and a spawn failure escapes. Otherwise the loop's trace is `Run` of the outcomes and replies. |
| `Messages.FilterByAssistant` | backup2.py:121-127 | Only messages of the given assistant are kept, and the result is a subsequence of the thread. |
| `Messages.FilterCounts` | test.py:118-124 | Every message of that assistant is kept as often as it occurs, and no other is. Also Python/main2.py:54-57 and test2.py:119-125. |
| `Messages.ResultFileNameExists` | backup2.py:134-136 | A file name exists exactly when the command has a non-whitespace character. Otherwise `split()[0]` raises before the `try`. |
| `Messages.ResultFileNameShape` | Python/main2.py:89-91 | The name is the command's first whitespace-free word, then `_results_`, the timestamp and `.txt`. The word can be read back from the name. |
| `Messages.CompleteIsPaddedDone` | backup2.py:115-119 | A reply the completion test accepts is "done" in some letter case, with only whitespace around it. |
| `Messages.PaddedDoneIsComplete` | test.py:112-116 | Conversely, any such reply is accepted. |
| `Messages.PenTestCompleteAccepts` | test2.py:113-117 | "Done" and " DONE\n" are accepted. |
| `Messages.PenTestCompleteRejects` | backup2.py:119 | "done." and "not done" are rejected. |
| `Messages.NewCommands` | backup2.py:195-196 | Commands run only when not seen before. The recorded list stays duplicate-free and afterwards holds every command looked at. |
| `Messages.NewCommandsOrder` | Python/main2.py:166-167 | The commands run are a subsequence of the page's commands with no repeats. |
| `Messages.NewCommandsFirstSeen` | backup2.py:195-197 | The commands run appear in the order of their first occurrence among the page's commands. |
| `Messages.BatchRan` | backup2.py:189-208 | A page pass runs exactly the first occurrences among the commands it looks at. |
| `Messages.BatchContinues` | backup2.py:189-208 | A pass looks at every command exactly when none of them crashes or, with completion checking, completes. |
| `Messages.BatchStopsAtLast` | backup2.py:206-208 | A pass that stops early stops at the last command it looked at. The completion test applies to already-executed commands too. |
| `Messages.CommandLog.constructor` | backup2.py:13 | `executed_commands` starts empty. |
| `Messages.CommandLog.Handle` | backup2.py:191-208 | A new command is appended and executed. An all-whitespace one crashes. With completion checking, a "done" reply ends `main`. |
| `Messages.CommandLog.ProcessPage` | Python/main2.py:161-169 | The list grows by exactly the commands run, stays duplicate-free, and the pass agrees with `RunBatch`. |
| `Cursor.Fetch` | main2.py:52-60 | The cursor ends at len(data)-1. The sentinel is returned exactly when the cursor was already there. |
| `Cursor.FetchSettles` | main2.py:55-59 | A second read of the same list returns the sentinel. |
| `Cursor.FetchReturns` | main2.py:56-59 | A cursor at or before the end returns `data[pos+1:]`. A cursor past the end returns an empty list, not the sentinel, and moves back down. |
| `Cursor.CursorSkipsOwnMessages` | main2.py:41-60 | After a read and k posts, the next read skips the k own messages. It returns exactly the replies appended after them, or the sentinel. |
| `Cursor.CursorNewestFirst` | main2.py:52-60 | If the listing comes newest first, the same read after the posts returns the oldest messages of the thread, back to front, and not the replies. |
| `Cursor.Session.constructor` | main2.py:12 | The cursor starts at -1. |
| `Cursor.Session.SendMessage` | main2.py:41-44 | Each `send_message` adds exactly one to the cursor. |
| `Cursor.Session.GetAssistantResponse` | main2.py:52-60 | The reply and the new cursor are those of `Fetch`. |
| `Cursor.LastOutputTimeQuiet` | main2.py:85-107 | With no output in any cycle, the idle timer holds the start time. |
| `Cursor.LastOutputTimeReset` | main2.py:105-107 | Otherwise the timer holds the stamp of the last cycle with output: it is reset exactly on cycles with output. |
| `Cursor.PollLoop` | main2.py:82-118 | The loop exits only on a cycle where the process has finished. `interactive` becomes true exactly when some cycle was idle for more than 2 s, and never goes back. |
| `PtyRunner.ReadLoop` | Python/main2.py:102-132 | The file receives each chunk stripped separately, in order. `interactive` holds exactly once a quiet poll came more than 60 s after the start. The loop stops at a dead process or at end of file. |
| `PtyRunner.ChunkKeepsCutoff` | Python/main2.py:104-122 | Output never postpones the 60 s cutoff: inserting a chunk changes nothing about the switch to interactive. |
| `BackupRunner.ReadWrites` | backup2.py:143-154 | The file receives every line read, in order. |
| `BackupRunner.ReadEnds` | backup2.py:144-160 | The loop ends at the first pass that finds the process finished, reads the unassigned timer, or is more than 60 s after the last line. |
| `BackupRunner.ReadLines` | backup2.py:142-164 | The loop as written computes `Read` from an unassigned timer. |
| `BackupRunner.SilentStartRaises` | backup2.py:153-158 | A command whose output stream ends before any line while it keeps running stops the loop at the first empty read with a NameError, nothing written. |
| `BackupRunner.ElapsedAssigned` | backup2.py:146-162 | As written, every pass that reaches the debug print has read a line, on that pass or earlier, so `elapsed_time` is assigned there. |
| `BackupRunner.RaisesIffSilent` | backup2.py:144-160 | On traces a blocking `readline` can produce, the loop raises exactly when the first read finds end of stream with the process alive, and then the command wrote no line at all. |
| `BackupRunner.ReadFrom` | backup2.py:144-162 | With `output_received_time` and `elapsed_time` both set before the loop, the loop never raises. |
| `BackupRunner.NeverRaises` | backup2.py:144-160 | From any assigned `output_received_time`, no idle test reads it unassigned. |
| `BackupRunner.SilentStartWaits` | backup2.py:144-162 | With both names set before the loop, the same silent command runs until it finishes, or until it has been silent for more than 60 s. |
| `TestDriver.MainStep` | test.py:165-180 | An executed command is never a "done" reply, and its file name is the derived result name. |
| `TestDriver.MainStepCommand` | test.py:170-172 | The command is the first part of the assistant's first listed response, or the previous turn's command when none was listed. |
| `TestDriver.ExecutedShape` | test2.py:178-182 | An executed command is not "done" and has a first word. |
| `TestDriver.DriveNeverExecutesDone` | test.py:165-184 | Over any run of turns, no "done" reply and no all-whitespace command is executed. |
| `TestDriver.StaleReplay` | test2.py:167-175 | A turn where the assistant listed nothing replays the previous command. |
| `TestDriver.FirstTurnUnassigned` | test.py:170-176 | A first turn with no response fails, because `message_content` was never assigned. |
| `Text.StripOfSlice` | backup2.py:119 | `strip` returns the slice between a prefix and a suffix made only of stripped characters. |
| `Text.StripOfEnds` | Python/compile.py:100 | The stripped text neither starts nor ends with a stripped character. |
| `Text.FirstTokenExists` | test.py:132 | `split()[0]` exists exactly when the text has a non-whitespace character. |
| `Text.FirstTokenShape` | backup2.py:134 | The first token is the first maximal run of non-whitespace characters. |

## Left out

- The conversation API: assistant, thread, message and run calls, and the run-status polling loops. Their results are parameters: pages of messages, replies, a `spawned` flag.
- Process spawning and I/O: `pexpect`, `ptyprocess`, `subprocess`, `select`, `fcntl`, sleeps, `fsync`, file reads and writes. Each loop runs over an abstract sequence of outcomes, poll cycles or read events, and time is a natural number.
- Python's Unicode-aware `str.strip`, `str.lower`, `str.split` and regex `\s` beyond ASCII. The model uses ASCII whitespace and ASCII case folding.
- The `except pexpect.exceptions.EOF` branch of IntrusionNet.py:144-145 is not modelled. EOF is the first pattern of the `expect` list, so it is reported as index 0 and that handler is never reached.
- Python/compile.py sends whatever `get_assistant_response` returns. A `None` reply (no message or no content) is not modelled: replies are strings.
- `PtyRunner.ReadLoop`: an `EOFError` raised by `pty_proc.read()` and caught by `except Exception` is not modelled. A readable descriptor always yields a chunk.
- `Cursor.CursorSkipsOwnMessages`: assumes that the listing is the whole thread, oldest first, with new messages appended at the end. main2.py:54 passes neither `order` nor `limit`, so the listing's order and paging belong to the conversation service, which is not part of this model. `Cursor.CursorNewestFirst` states what the cursor returns under a newest-first listing.
- `BackupRunner.Read`: traces where a line follows an empty read are admitted, although a blocking `readline` cannot produce them. Every lemma about `Read` holds for all traces. `BackupRunner.StreamOrder` names the traces that can occur.
- `BackupRunner.Read`: the debug print at backup2.py:162 is not modelled. As written it cannot fail: `BackupRunner.ElapsedAssigned` shows that every pass reaching it has read a line, which assigns `elapsed_time`. The corrected loop needs `elapsed_time` set before the loop as well.
- `TestDriver.MainStep`: an exception raised inside the `try` of test.py's `execute_command` is caught and logged, and the file name is still returned. When it was `open(filename, 'w')` that failed (the first word names a missing or unwritable directory, say `tools/scan.sh host` with no `tools/`), no file exists and `open(filename, 'r')` at test.py:181 raises outside any handler, ending `main`. File creation is not modelled, so `Execute` stands for that turn as well.
- `Messages.CommandLog.Handle`: the same path exists in backup2.py: a failed `open(filename, 'w')` at line 143 is caught, and `open(filename, 'r')` at line 202 then ends `main`. File creation is not modelled, so such a command is reported as `Continue`.
- Call-site faults outside the modelled functions: IntrusionNet.py:182 passes four arguments to a three-parameter function. Python/main2.py:171 reads an undefined `filename`. Python/main2.py:136 touches `pty_proc` after a failed spawn.
- The concrete regexes of the two prompts (`msf6.*>\s`, the shell banner) are not modelled: matching belongs to pexpect, and an outcome only names which pattern matched.
- 49757.py (a saved HTML page) and the demo scripts try.py, try3.py, try4.py, main3.py, Python/try2.py, Python/try3.py, Python/main3.py and Python/test.py are not part of this model. main.py and backup.py are module-level API call scripts and are not part of this model either.

## Findings

| source | as written | input that shows it | evidently intended | confidence | as-written member | corrected member |
|---|---|---|---|---|---|---|
| backup2.py:153-158 | `output_received_time` is assigned only when a line is read, but the idle test reads it on any pass without a line | a command that sends both outputs elsewhere and keeps running, e.g. `nmap -sV host > scan.txt 2>&1`: the first `readline()` finds end of stream and `poll()` is None | `output_received_time` and `elapsed_time` are both set when the loop starts, as `last_write_time` is (or the debug print at line 162 is removed), so no pass reads an unassigned name | high (not executed) | `BackupRunner.SilentStartRaises` | `BackupRunner.NeverRaises` |
