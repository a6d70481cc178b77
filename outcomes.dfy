/** What one `process.expect([pexpect.EOF, msf6_regex, command_shell], timeout=...)` call
    can report. The pattern matching itself is the library's and is not modelled: an
    outcome carries the text pexpect puts in `process.before` and `process.after`. */
module Outcomes {

  datatype ExpectResult =
    | Eof(before: string)                          // index 0: the process closed its output
    | MsfPrompt(before: string, after: string)      // index 1: r"msf6.*>\s"
    | ShellOpened(before: string, after: string)    // index 2: a "shell ... opened" banner
    | Timeout                                      // pexpect.TIMEOUT was raised

  predicate IsPrompt(r: ExpectResult) {
    r.MsfPrompt? || r.ShellOpened?
  }
}
