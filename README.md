# catalyst-checkstack, modelled in Dafny

`catalyst-checkstack.py` is an operator script for Cisco Catalyst switch
stacks. It asks for credentials, logs into a jump host, and reads a file of
host lines. For every line with exactly two words, it takes the second word
as a switch hostname. It pings that switch. If the ping answers, it logs in
and runs a fixed set of commands:

- `show clock`
- `show switch`
- `show switch stack-ports`
- `show switch stack-ports summ`
- one CRC-error register read per stack member

All of that output is appended to `<host>.output`. Each member's register
read is also written to its own file, `<host>_<member>_<timestamp>`.

This project models the decision-making and state-changing core of that
script:

| module | models |
|---|---|
| `Text` | The Python 2 byte-string operations the script uses: `split()`, `splitlines()`, substring search, ASCII lower case, and the reach of the regular-expression `.` (everything before the first `"\n"`). It proves the round trips for both splits. `split()` gives back the words of a line however whitespace leads, separates and follows them. `splitlines()` gives back lines that all end in the same terminator, one of "\n", "\r" or "\r\n". |
| `Arguments` | `check_argv` |
| `Credentials` | The defaulting rules of `get_credentials`. |
| `HostList` | How the driver selects host lines. |
| `Reachability` | How `ping_check` decides. It reads the platform name and the ping output lines as parameters. |
| `Commands` | The lines sent to the switch, each a `Command` value. `Line` gives the text passed to `sendline`. |
| `Terminal` | The pexpect session, as a class with the commands sent and the texts its future waits will capture, plus the file system, as a class over a map from file names to contents. |
| `StackInventory` | `get_prompt` and `get_switch_members`, as methods on the session. It also gives the member-row pattern as a function on lines. |
| `Capture` | `save_switch_output`, as an imperative procedure over the session and the file store. `CapturedFiles`, `Plan` and `Sends` say, for any sequence of captured texts, what the files become and which commands were sent. Separate lemmas prove what those mean. |

A wait that times out raises an exception in the script, which ends the
procedure. In the model, `Expect` returns `None` and the procedure stops at
that point. Everything written before the stop stays written.

## Model

| member | source | states |
|---|---|---|
| Arguments.CheckArgv | catalyst-checkstack.py:174-182 | The arguments are accepted exactly when there are two of them, the program name and one host file. In that case exactly one argument follows the program name. |
| Credentials.DefaultSwitchUser | catalyst-checkstack.py:32 | The offered switch user is "la-" followed by the jump-host user, and is 3 characters longer. |
| Credentials.Resolve | catalyst-checkstack.py:26-42 | Both resolved user names are non-empty. A typed name is kept. An empty jump user becomes "user". An empty switch user becomes "la-" plus the resolved jump user. Passwords pass through unchanged. |
| Credentials.ResolveIdempotent | catalyst-checkstack.py:28-38 | Resolving already-resolved credentials changes nothing. |
| Credentials.ResolveAllDefaults | catalyst-checkstack.py:28-38 | Two empty user names resolve to "user" and "la-user". |
| Text.Split | catalyst-checkstack.py:196-197 | Every word of `line.split()` is non-empty and contains no ASCII whitespace. |
| Text.SplitLeadingSpace | catalyst-checkstack.py:196 | Leading whitespace of any kind and length yields no word. |
| Text.SplitWordThen | catalyst-checkstack.py:196 | A word followed by a non-empty run of any whitespace comes off the front of the line as one word. |
| Text.SplitLastWord | catalyst-checkstack.py:196 | A word followed only by whitespace, such as the "\n" a read line keeps, is one word. |
| Text.SplitJoinGapped | catalyst-checkstack.py:196-197 | Splitting whitespace-free words, each followed by its own run of whitespace and with any leading whitespace, returns those words. Every run but the last must be non-empty. |
| Text.SplitLines | catalyst-checkstack.py:102 | Every element of `splitlines()` is free of line terminators, and the result is empty exactly when the text is empty. |
| Text.SplitLinesJoinLines | catalyst-checkstack.py:102 | Splitting lines that all end in the same terminator, one of "\n", "\r" or "\r\n", returns those lines, with no extra empty line at the end. |
| Text.SplitLinesOneLine | catalyst-checkstack.py:102 | A non-empty text without terminators is a single line. |
| Text.Find | catalyst-checkstack.py:62 | Returns the first index at or after `from` where the pattern occurs. `None` means the pattern occurs nowhere from there on. |
| HostList.HostOf | catalyst-checkstack.py:196-197 | A selected hostname is non-empty and holds no whitespace. |
| HostList.SelectHosts | catalyst-checkstack.py:194-197 | The loop over the file's lines returns `Hosts(lines)`: the second word of every line with exactly two words, in file order. |
| HostList.HostOfWords | catalyst-checkstack.py:196-197 | A line picks a host exactly when it has two words, and the host is the second word. This holds whatever whitespace leads, separates and follows the words, terminator included. |
| HostList.HostsNamedByLines | catalyst-checkstack.py:194-197 | A name is selected exactly when some line picks it. |
| HostList.HostsAppend | catalyst-checkstack.py:195-197 | Selection over two runs of lines is the two selections concatenated, so file order is kept. |
| HostList.HostOfLabelled | catalyst-checkstack.py:195-197 | The read line "r1 sw-a\n" selects "sw-a". |
| HostList.HostOfSpaced | catalyst-checkstack.py:195-197 | The read line "  r2\tsw-b  \r\n" selects "sw-b". |
| HostList.HostOfLoneName | catalyst-checkstack.py:195-196 | The one-word read line "sw-a\n" is skipped. |
| HostList.HostOfThreeWords | catalyst-checkstack.py:195-196 | The three-word read line "r1 sw-a spare\n" is skipped. |
| Reachability.IsCygwin | catalyst-checkstack.py:62 | The platform test holds exactly when the lower-cased text before the first newline contains "cygwin". |
| Reachability.LastReceived | catalyst-checkstack.py:67 | Returns the last index in the range where "Received = " and a digit start. `None` means there is none. |
| Reachability.SummaryIndex | catalyst-checkstack.py:67 | The index it gives is where "Received = " and a digit start. |
| Reachability.SummaryIndexSpec | catalyst-checkstack.py:67 | The summary pattern matches exactly when some "Packets" is followed by a "Sent" and then by "Received = " and a digit. The index found is the last such "Received = ", which is where the greedy pattern takes its group. |
| Reachability.SummaryDigit | catalyst-checkstack.py:67-68 | What the pattern's group captures is a decimal digit. |
| Reachability.DecidesAtUnique | catalyst-checkstack.py:66-73 | Only one line, the first matching one, decides the answer. |
| Reachability.PingCheck | catalyst-checkstack.py:61-83 | Off Cygwin, the host is unreachable. On Cygwin, it is reachable exactly when the first summary line's digit is not '0'. Output without a summary line means unreachable. |
| Commands.Line | catalyst-checkstack.py:132-168 | Gives the text of each command sent: the empty prompt probe (line 100), the four status commands, the register read and `exit`. Only the probe is an empty line. |
| Commands.LineInjective | catalyst-checkstack.py:132-168 | Distinct commands have distinct texts, so recording commands records exactly the text sent. |
| Commands.ReadCrcErrorsLine | catalyst-checkstack.py:155 | A register read is the fixed command text followed by one character, the member number. |
| Commands.ReadCrcErrorsInjective | catalyst-checkstack.py:155 | Two register-read lines are equal exactly when they name the same member. |
| Terminal.Session.SendLine | catalyst-checkstack.py:100 | A send records the command and consumes no capture. |
| Terminal.Session.Expect | catalyst-checkstack.py:101 | A wait yields the next capture and consumes it. With nothing left to capture, it yields `None`, the timeout. |
| Terminal.FileStore.Append | catalyst-checkstack.py:127-134 | A write to a file opened with mode 'a' puts the text after the file's old contents. A missing file counts as empty. |
| Terminal.FileStore.Overwrite | catalyst-checkstack.py:161-162 | A file opened with mode 'w' and written once holds exactly that text. |
| StackInventory.PromptFrom | catalyst-checkstack.py:102 | The prompt ends in '#', and the text before that '#' is one line, with no terminator in it. |
| StackInventory.PromptFromLastLine | catalyst-checkstack.py:102 | For captured lines that all end in the same terminator, one of "\n", "\r" or "\r\n", followed by a last line without one, the prompt is that last line plus '#'. |
| StackInventory.PromptFromTerminatedLines | catalyst-checkstack.py:102 | When the capture ends with a terminator, the prompt is still its last line plus '#', because `splitlines()` drops the empty text after the final terminator. |
| StackInventory.GetPrompt | catalyst-checkstack.py:99-104 | Sends one empty line and consumes one capture. Returns the prompt when that capture is non-empty. Returns `None` when the wait times out, or when the capture is empty, where the script raises IndexError. |
| StackInventory.IsMemberRow | catalyst-checkstack.py:114 | A member row is at least 8 characters long: a character, a digit, a space and a role word of at least 5 letters. |
| StackInventory.IsMemberRowSpec | catalyst-checkstack.py:114 | A line is a member row exactly when it has a character, a digit and a space, and one of "ctive", "tandby" or "ember" occurs at or after index 3. |
| StackInventory.MarkedRowIsMember | catalyst-checkstack.py:114-116 | Any first character, a digit, a space, any text and then "ctive", "tandby" or "ember" make a member row. Its digit is the member number reported. |
| StackInventory.MemberIds | catalyst-checkstack.py:113-116 | The member numbers are digits, at most one per line. |
| StackInventory.ParseMembers | catalyst-checkstack.py:112-116 | The loop collects `MemberIds` of the captured lines, in order. |
| StackInventory.MemberIdsAppend | catalyst-checkstack.py:113-116 | Parsing two runs of lines gives the two results concatenated. |
| StackInventory.MemberIdsFromRows | catalyst-checkstack.py:113-116 | A number is listed exactly when some line is a member row carrying it. |
| StackInventory.NoRoleNoMember | catalyst-checkstack.py:114 | A line without any role word contributes no member. |
| StackInventory.GetSwitchMembers | catalyst-checkstack.py:107-118 | Sends the probe, then `show switch` once the prompt is known. Returns the member numbers parsed from the second capture exactly when both waits succeed and the prompt capture is non-empty. Consumes exactly the captures it waited for. |
| Capture.LogNameParts | catalyst-checkstack.py:125 | The log's name is the host name followed by ".output". |
| Capture.MemberFileNameParts | catalyst-checkstack.py:160 | A member file's name is the host name, '_', the member number, '_' and the timestamp. |
| Capture.SeparatorLayout | catalyst-checkstack.py:128-129 | The separator written before each run is 44 characters: four "\n", 39 '=' and a final "\n". |
| Capture.Plan | catalyst-checkstack.py:123-169 | The commands of a complete run number 8 plus the member count. They start with the prompt probe and end with `exit`. |
| Capture.Sends | catalyst-checkstack.py:123-169 | The number of commands sent is at least 1, the prompt probe, and at most the whole plan. |
| Capture.CapturedFiles | catalyst-checkstack.py:123-165 | When the first prompt wait fails, before the log is opened, no file changes. |
| Capture.CapturedFileNames | catalyst-checkstack.py:125-163 | The files that exist afterwards are the old ones plus, once the log was opened, the log and the member file of every register read captured. No file is removed. |
| Capture.PlanParts | catalyst-checkstack.py:123-169 | The command plan is the probe, then the four status commands, then `get_switch_members`' two commands, then one read per member, then `exit`. |
| Capture.PlanRegisterRead | catalyst-checkstack.py:154-155 | The i-th register read in the plan names the i-th member. |
| Capture.StopsAtPrompt | catalyst-checkstack.py:123 | If the first prompt wait fails, only the probe is sent and the procedure does not complete. |
| Capture.StopsInStatus | catalyst-checkstack.py:132-150 | If a status wait fails, the commands up to it are sent. The log gains only the status outputs captured before it. |
| Capture.StopsInMembers | catalyst-checkstack.py:152 | If `get_switch_members` fails, the log holds the four status outputs and no register read is sent. |
| Capture.StopsInRegisters | catalyst-checkstack.py:154-157 | If a register wait fails, the reads up to it are sent and the log holds the reads captured before it. |
| Capture.ReachesExit | catalyst-checkstack.py:154-169 | Once every register read is captured, `exit` is sent. The run completes exactly when the answer to `exit` arrives. |
| Capture.CompletesWithExit | catalyst-checkstack.py:168-169 | A complete run sends the whole plan, and its last command is `exit`. |
| Capture.MemberFileIsNotLog | catalyst-checkstack.py:160 | A member file's name is never the log's name. |
| Capture.MemberFileNameInjective | catalyst-checkstack.py:160 | Member files of different members have different names. |
| Capture.LogKeepsOldContents | catalyst-checkstack.py:127-129 | The log's old contents stay at its front, followed by the separator. |
| Capture.LogOnCompletion | catalyst-checkstack.py:127-157 | After a complete run, the log has gained the separator, the four status outputs and every register read, in that order. |
| Capture.MemberFileHoldsItsRead | catalyst-checkstack.py:154-163 | Each member file holds exactly that member's register read, unless a later read writes a file of the same name. That happens only for the same member at the same timestamp. |
| Capture.OtherFilesUntouched | catalyst-checkstack.py:125-163 | Files other than the log and the member files written are unchanged. |
| Capture.SendAndLog | catalyst-checkstack.py:132-135 | Sends one command and waits. On success, the capture is appended to the log. On a timeout, nothing is written. |
| Capture.WriteSeparator | catalyst-checkstack.py:127-130 | The log, created if missing, gains four blank lines and a rule of '=' characters. |
| Capture.LogStatus | catalyst-checkstack.py:132-150 | Sends the four status commands in order, appending each capture to the log, and stops at the first timeout. |
| Capture.ReadRegister | catalyst-checkstack.py:155-163 | Sends one member's register read. The capture is appended to the log and written to the member's own timestamped file. |
| Capture.LogRegisters | catalyst-checkstack.py:154-165 | Reads every member in order, and stops at the first timeout. The new state is the one `CapturedFiles` gives for the reads captured. |
| Capture.FinishRegisters | catalyst-checkstack.py:154-169 | Once the members are known, runs the register loop and `exit`. It states the sends, the remaining captures and the files whether it stops at a timeout or completes. |
| Capture.LogMembers | catalyst-checkstack.py:152-169 | Runs `get_switch_members`, the register loop and `exit`, and states the sends, remaining captures and files for each way of stopping. |
| Capture.SaveSwitchOutput | catalyst-checkstack.py:122-169 | The run completes exactly when every wait succeeds. The commands sent are the first `Sends` commands of the plan. The captures consumed are exactly those waited for. The files become `CapturedFiles` of the captures and the old files. |

## Left out

- Network, terminal and process I/O are not modelled: the pexpect child process, the patterns its waits match, and the 300-second timeouts. A session is the sequence of texts its waits will capture. A timeout is the end of that sequence, where the script's exception ends the procedure.
- StackInventory.GetPrompt: the prompt it returns is not used as a pattern in later waits. The captures are given directly, and the model does not check that a capture ends at the prompt. For the same reason, the `]$` pattern waited for after `exit` is not checked.
- `open_jumphost` and `login_to_switch` are not part of this model. They only send fixed lines and wait for fixed prompts, and they have no branches.
- Console output, `raw_input` and `getpass` are not modelled. `Credentials.Resolve` takes the four typed values as parameters.
- `platform.system()` and the ping subprocess are not modelled. `PingCheck` takes the platform name and the ping output lines as parameters.
- `datetime.now().strftime(...)` is not modelled. It is the parameter `clock`, and `clock(i)` is the timestamp taken for the i-th register read.
- `flush()` and what survives a crash are not modelled. The file store holds what was written, in order.
- General regular-expression matching is not modelled. The three patterns the script uses are written out as predicates on strings.
- Only the host-line selection of the `__main__` driver is modelled. The per-host sequence of ping, login and save, and the exception that ends the whole run on a timeout, are not composed into one procedure.
- Commands.Line: commands are values of a datatype. `Line` gives the text passed to `sendline`, without the line separator `sendline` adds. Sessions record commands, and `LineInjective` shows that this loses nothing.
