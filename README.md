# Distrual hub: child registry and exit bookkeeping

This project models the hub of Distrual (`main.go`). The hub starts worker programs as child
processes and keeps them in a map from a small integer id to the child. It kills children on the
operator's command and reports each child's exit. The model and its proofs are in Dafny:

- `registry.dfy` (module `Registry`) holds the `Child` and `Hub` classes and the registry
  operations, imperative as in the source:
  - `AddChild` picks the smallest free id in [0, 20) with its loop.
  - `StartChild` enforces the cap of 20 and the launch-failure path.
  - `RemoveChild` and `Child.Kill` are the kill path.
  - `Wait` decides the exit outcome.
  - `DeliverExit` is the exit consumer.
  - The module also holds `IsValidChildID`, `ReapChildren`, the `example` command (`SendExample`),
    one command of the command loop (`Execute`) and the loop itself (`CmdLine`).
  - Pure specification functions sit beside the classes, each with lemmas:
    - `SmallestFree` is the id a new child gets.
    - `ExitError` is the error `Wait` reports.
    - `ReportOf` is what the consumer prints.
- `commands.dfy` (module `Commands`) covers how the command loop reads a line: trimmed, split on
  single spaces, then dispatched on the first field. Ids are read with `strconv.Atoi`, and its
  error is dropped.
- `text.dfy` (module `Text`) covers the Go library functions that this reading relies on:
  `strings.TrimSpace`, `strings.Split(s, " ")`, `strconv.Atoi` on a 64-bit platform, and
  decimal formatting.
- `format.dfy` (module `Format`) covers what `fmt.Errorf(text)` returns when called with no
  operands. `Wait` does exactly that with a child's captured stderr.
- `findings.dfy` (module `Findings`) holds two runs of the hub that exhibit the first finding
  below.
- `wrappers.dfy` holds `Option`. Go's nil-able `error` is `Option<string>`, where the string is
  the error's text.

Processes are abstract:
- Whether `cmd.Start` fails is the `startErr` parameter of `StartChild`.
- The error `cmd.Wait` returns is the `waitErr` parameter of `Wait`.
- `Process.Kill` sets the child's `signalled` flag.
- The process's writes to its stderr buffer are `Child.WriteStderr`.

Each goroutine step is one atomic method call: a child's `Wait` producing its `ChildExit`, the
consumer delivering it, or one command of the loop. Every one of these calls preserves
`Hub.Valid()`, so every interleaving keeps the registry's invariant:
- every key lies in [0, 20);
- every key names the child whose `id` it is;
- so the registry never holds more than 20 children (`Hub.Bounded`).

## Model

| member | source | states |
|---|---|---|
| `Registry.FirstFreeFrom` | main.go:42-48 | the result is the least integer from `from` up to 20 that is not a key, or none when all of them are keys |
| `Registry.SmallestFree` | main.go:41-49 | the id a new child gets is in [0, 20), is not in use, and every smaller id is in use; none means all 20 ids are in use |
| `Registry.SmallestFreeIsLeast` | main.go:42-46 | an id that is free while every smaller id is taken is exactly the one handed out |
| `Registry.IdReuse` | main.go:42-45 | once id k is deleted and every smaller id is still in use, k is handed out again |
| `Registry.RegistryBound` | main.go:42-45 | a set of ids drawn from [0, 20) has at most 20 members |
| `Registry.FreeIdExists` | main.go:55-80 | with fewer than 20 ids in use a free id exists, so the allocation after the cap check always succeeds |
| `Registry.Hub.constructor` | main.go:33-39 | a new hub has an empty, valid registry |
| `Registry.Hub.Bounded` | main.go:42-57 | a valid registry holds at most 20 children |
| `Registry.Hub.IsValidChildID` | main.go:189-192 | true exactly when the id is a key; a registered id lies in [0, 20) and names its child |
| `Registry.Hub.AddChild` | main.go:41-49 | the child is stored under the smallest free id and its id is set to it; other entries are unchanged; with all ids in use nothing changes |
| `Registry.Hub.StartError` | main.go:55-69 | the cap is checked first ("Child limit (20) reached" at 20 or more children), then the start failure ("exec failed: " and the cause); there is no error exactly when both pass |
| `Registry.Hub.StartChild` | main.go:53-86 | at 20 or more children: "Child limit (20) reached" and no change; a failed start: "exec failed: " and the cause, and no change; otherwise no error, and exactly one fresh child is added under the previously free smallest id, not yet killed and with empty stdin and stderr |
| `Registry.Child.constructor` | main.go:71-78 | a new child has id -1, its command line, and is not killed by the parent |
| `Registry.Child.KillProcess` | main.go:126 | the process has been sent the kill |
| `Registry.Child.Kill` | main.go:121-127 | without a process nothing changes; otherwise `killedByParent` is set and the kill is sent |
| `Registry.Child.WriteStdin` | main.go:152 | the text is appended to what the child's stdin has received |
| `Registry.Child.WriteStderr` | main.go:64-65 | what the process writes to stderr is appended to the captured buffer |
| `Registry.Hub.RemoveChild` | main.go:88-97 | returns nil in all cases; an unknown id changes nothing; a registered id is deleted at once (only that key) and its child is marked killed by the parent and sent the kill |
| `Registry.ExitError` | main.go:107-114 | the error is nil exactly when the parent killed the child or waiting succeeded; with empty stderr the wait error passes through unchanged; with non-empty stderr without '%' the error text is the stderr text |
| `Registry.Hub.Wait` | main.go:106-119 | the exit carries the child's current id and the error `ExitError` decides from `killedByParent`, the wait error and the captured stderr |
| `Registry.ReportOf` | main.go:205-212 | the report carries the exit's id and is "exited normally" exactly when the error is nil; an abnormal report's detail is the error's text |
| `Registry.ParentKilledReportedNormal` | main.go:112-113 | a child the hub killed is always reported as having exited normally, whatever its wait error and stderr |
| `Registry.AbnormalIff` | main.go:106-119 | an exit is reported abnormal exactly when the child was not killed by the hub and waiting on it failed; the detail is the wait error when stderr is empty, and the stderr text when that is non-empty and has no '%' |
| `Registry.Hub.DeliverExit` | main.go:204-214 | exactly the exit's id is deleted, whatever the outcome, and the report is `ReportOf` the exit |
| `Registry.Hub.DeliverOwnExit` | main.go:204-214 | corrected consumer: an exit deletes its id only while that id still names the child the exit came from; otherwise nothing changes |
| `Registry.Hub.ReapChildren` | main.go:194-198 | every registered child is sent the kill; the registry and every `killedByParent` flag stay as they were |
| `Registry.Hub.SendExample` | main.go:148-152 | with both ids registered the line "ExampleRPC to <to>" goes to the sender's stdin and no other child's stdin changes; otherwise "outside valid range" and nothing changes |
| `Registry.ResponseTo` | main.go:140-185 | "exiting" is the response exactly to exit; a create is answered with its start outcome, without error exactly when fewer than 20 children are registered and the program starts; an example is sent exactly when both ids are registered |
| `Registry.KeysAfter` | main.go:140-185 | a kill leaves its id unregistered and adds none; a create only adds ids, at most one; every other command leaves the ids as they were; ids in [0, 20) stay in [0, 20) |
| `Registry.Run` | main.go:129-187 | running the commands in turn gives one response per command, "exiting" exactly for each exit |
| `Registry.RunBounded` | main.go:129-187 | whatever the commands, starting from ids in [0, 20) the registry never holds an id outside [0, 20), and so never more than 20 children |
| `Registry.Hub.Execute` | main.go:140-185 | the response is `ResponseTo` and the registered ids are `KeysAfter` the ids before the command; every child still registered is the one registered before under the same id |
| `Registry.Hub.CmdLine` | main.go:129-187 | the commands run in turn until the first "exit", after which nothing more is read: the responses and the final registered ids are `Run` of the commands executed; the registry stays valid whatever the commands |
| `Registry.IntendedExitError` | main.go:108-114 | corrected outcome: nil exactly when killed by the parent or the wait succeeded; otherwise the stderr text verbatim when there is any, or else the wait error |
| `Registry.ExitErrorAgreesWithIntended` | main.go:110 | without '%' in stderr the outcome as written and the corrected outcome agree |
| `Registry.StderrMangled` | main.go:110 | as written, stderr of the form text + '%' + flags + letter + text (such as "100% full") is reported with "%!<letter>(MISSING)" in place of the '%', the flags and the letter, which differs from the stderr text |
| `Findings.StaleExitRemovesReusedChild` | main.go:204-214 | kill child 0, start a new child (it gets id 0 again), then deliver the killed child's exit: the new child, neither killed nor exited, is no longer registered |
| `Findings.StaleExitSparesReusedChild` | main.go:204-214 | the same run with the corrected consumer leaves the new child registered under id 0 |
| `Commands.Dispatch` | main.go:136-174 | a line is read as an example exactly when it has three fields and the first is "example", and as a kill exactly when it has two and the first is "kill"; their ids are `Atoi` of the fields with the error dropped, so 64-bit values; any other count for "example" or "kill" is refused for its argument count; "create" alone asks for a binary, and with more fields gives the program and the remaining fields as arguments; "list" and "exit" are recognised on the first field whatever follows |
| `Commands.Parse` | main.go:134-174 | no program or argument of a parsed "create" holds a space, and every id of a parsed "example" or "kill" is a 64-bit value |
| `Commands.Tokens` | main.go:135-139 | splitting always gives at least one field, so the `clen == 0` branch can never be taken |
| `Commands.TokensOfLine` | main.go:134-135 | a line of space-free fields, whose ends are not white space, plus its newline is read back as exactly those fields |
| `Commands.ParseExampleWords` | main.go:141-147 | "example <a> <b>" is read as an example between whatever `Atoi` makes of the two words, their errors dropped |
| `Commands.ParseExampleNonNumeric` | main.go:146-147 | "example abc 1" is read as an example from child 0 to child 1 |
| `Commands.ParseExample` | main.go:141-147 | "example <from> <to>" with 64-bit ids written in decimal is read as an example from `from` to `to` |
| `Commands.ParseExampleArgumentCount` | main.go:141-145 | an "example" line with other than three fields is refused for its argument count |
| `Commands.ParseCreate` | main.go:153-164 | "create" with at least a program is read as a create of that program with the remaining fields as arguments |
| `Commands.ParseKillWord` | main.go:168-173 | "kill <word>" is read as a kill of whatever `Atoi` makes of the word, its error dropped |
| `Commands.ParseKill` | main.go:168-174 | "kill <id>" with a 64-bit id written in decimal is read as a kill of that id |
| `Commands.ParseKillNonNumeric` | main.go:173 | "kill <word>" with a word of at most 18 characters that is not a decimal number is read as a kill of child 0 |
| `Commands.ParseKillArgumentCount` | main.go:168-172 | a "kill" line with other than two fields is refused for its argument count |
| `Text.TrimSpace` | main.go:135 | the result is the slice of the line between its leading and its trailing white space: empty exactly when the line is all white space, otherwise neither starting nor ending with white space; a text without white space at its ends is its own trim |
| `Text.TrimSpaceDropsNewline` | main.go:134-135 | trimming a line that ends in a newline, and whose text has no white space at its ends, gives back the text |
| `Text.Split` | main.go:135 | splitting on " " gives at least one field and no field contains a space |
| `Text.JoinSplit` | main.go:135 | joining the fields with single spaces gives back the line |
| `Text.SplitJoin` | main.go:135 | splitting a join of space-free fields gives back the fields |
| `Text.Atoi` | main.go:146-147 | the value `Atoi` yields, its error dropped, always lies in the 64-bit range |
| `Text.AtoiItoa` | main.go:146-147 | `Atoi` reads back every 64-bit int written in decimal |
| `Text.AtoiNonNumeric` | main.go:173 | a word of at most 18 characters that is not a signed decimal number reads as 0 |
| `Format.Errorf` | main.go:110 | a text without '%' comes out of `fmt.Errorf` unchanged |
| `Format.ErrorfAppendPlain` | main.go:110 | text before the first '%' is copied and the rest is formatted on its own |
| `Format.AfterFlagsPlain` | main.go:110 | after the flags, a directive without index, width or precision prints "%!(NOVERB)" at the end of the text, "%" for '%', and "%!<verb>(MISSING)" for any other verb |
| `Format.ErrorfPercentPercent` | main.go:110 | "%%" comes out as "%" |
| `Format.ErrorfMissingOperand` | main.go:110 | '%', flags and a verb other than '%' come out as "%!<verb>(MISSING)" followed by the rest of the text |

## Left out

- Pipes and output: `StdinPipe`, `StdoutPipe`, `ScanStdout` and all printing to the terminal are
  not modelled. Responses and reports stand for what is printed. The stdin pipe is the text
  written to it.
- Processes: `exec.Command`, `cmd.Start`, `cmd.Wait` and `Process.Kill` are not modelled, only
  their outcomes (parameters and the `signalled` flag). The error that `Process.Kill` returns is
  ignored by the source and not modelled.
- Concurrency: the goroutines and the unbuffered exit channel are modelled as atomic steps in a
  sequence. The unsynchronised map access between the consumer and the command loop (a data
  race in Go) is not modelled.
- `Registry.Hub.ReapChildren` visits the ids in ascending order; Go visits the map in random order.
  The effect is the same. The nil-process panic of line 196 cannot happen, because every
  registered child was started.
- `Registry.Hub.Execute` states the response and the new registry for each command. What a
  command does to the children's fields (stdin, the kill flags, the new child's command line) is
  stated on `SendExample`, `StartChild`, `RemoveChild` and `ReapChildren`, which it calls, and
  not on `Execute` or `CmdLine`.
- `Registry.Hub.CmdLine` takes the commands already parsed (`Commands.Parse` of each line).
  Parsing is pure, so this changes no outcome. The input is finite. At end of input Go's
  `ReadString` keeps returning "" and the loop spins on it forever; the model stops instead.
- The text of the `list` command is not modelled, only the set of ids it lists, because the
  order of Go's map iteration is random.
- `Commands.ParseKillNonNumeric` covers words of at most 18 characters. Longer words can reach
  `Atoi`'s range-error path, which `Text.Atoi` models but no lemma covers.
- `Text.Atoi` assumes a 64-bit `int`. Strings are sequences of Unicode code points; Go works on
  UTF-8 bytes, which agrees for valid UTF-8 input. Invalid UTF-8 is not modelled.
- `Format.Errorf` models only `fmt.Errorf` with no operands, which is how the source calls it.
  The lemmas cover the directive forms that plain text produces: bare verbs, '%%' and flags.
  Index, width and precision forms are modelled but no lemma covers them.
- `programs/test.go` (the node program) and `util/msg/msgutil.go` (the JSON message helpers) are
  not part of this model.
- Where the code and the design description differ, the model follows the code:
  - Killing an unknown id returns nil after a notice, not an "unknown child" error.
  - Killing deletes the entry at once, rather than waiting for the exit event.
  - So an id can be reused while the killed process is still alive.
  - A child killed by the hub is reported as "exited normally", not with a separate
    supervisor-terminated outcome.
  - A failed exit with no stderr reports the wait error itself (e.g. "exit status 1"), not a
    generic message.
  - A failed exit is reported abnormal whether or not there was error output.

## Findings

| source | as written | input that shows it | evidently intended | confidence | as-written member | corrected member |
|---|---|---|---|---|---|---|
| main.go:204-214 | the consumer deletes `exit.id`, although `RemoveChild` has already deleted that id and a new child may hold it | kill child 0, start a new child (it gets id 0), then the killed child's exit arrives | an exit unregisters only the child it came from | not executed | `Findings.StaleExitRemovesReusedChild` | `Registry.Hub.DeliverOwnExit` |
| main.go:110 | the captured stderr is passed to `fmt.Errorf` as its format string | a child that fails with stderr "100% full" is reported as "100%!f(MISSING)ull" | report the stderr text verbatim (`errors.New`) | not executed | `Registry.StderrMangled` | `Registry.IntendedExitError` |
