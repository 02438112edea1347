# Apollo provisioning script, modelled in Dafny

Apollo is a Python script that sets up a fresh Ubuntu machine. It creates a
downloads directory, installs apt packages and then snap packages (those
flagged `--classic` first), and runs the installers of six programs that
ship outside both package managers: Brave, Docker, Fish, Google Chrome,
Neovim and Poetry. It then runs post-installation steps, downloads
images and cleans up. Every command goes through the shell. A command fails
when it writes anything to stderr, except that apt's standard
"WARNING: apt does not have a stable CLI interface" is first stripped from
the stderr of the apt commands that filter it.

This project models that core as pure functions and proves what it does:

| file | module | models |
|---|---|---|
| `wrappers.dfy` | `Wrappers` | `Option`, `Result` and `Outcome` (pass or fail with a message) |
| `exceptions.dfy` | `Exceptions` | the exception classes of `exceptions.py` and `old/exceptions.py` |
| `process.dfy` | `Process` | the `(stdout, stderr)` pair a command returns and the argument-vector runner |
| `text.dfy` | `Text` | Python's `in` on strings, subsequences, repetition, ASCII `str.lower` |
| `old_cli.dfy` | `OldCli` | `old/cli.py`: the empty-command guard of `comm`, `cmd_concat`, the self-recursive stripper `crm_err_msg` and `crm_apt_warning` |
| `cli.dfy` | `Cli` | `cli.py`: `car_expected_err_msg` and `car_apt_warning` |
| `machine.dfy` | `Machines` | `machine.py`: `supported_machines` and `get_machine` |
| `installers.dfy` | `Installers` | `installers.py`: `pre_install`, `install_apt_pkgs`, `install_snap_pkgs`, the six installers, `install_not_ppkd_prog` and `cleanup` |
| `main_flow.dfy` | `EntryPoint` | `main.py`: the fail-fast sequence of steps and its handlers |

Modelling choices:

- The shell is an oracle. In `Installers` it is a function from the
  command to its `(stdout, stderr)` pair. Commands are the constructors of
  `Installers.Line`, and `Installers.Render` gives each one's exact command
  line. The messages of the `InstallationError`s are the constructors of
  `Installers.Notice`, and `Installers.Say` gives each one's exact text.
- A step is a list of commands. Each command carries the check that judges
  its stderr: any stderr fails (`Raw`); stderr fails only if something is
  left once apt's warning is stripped (`AptFiltered`); or stderr is ignored
  (`Ignored`). A step runs its commands in order and stops at the first
  rejected one, which is what every installer in `installers.py` does with
  its `if errs: raise InstallationError(...)` lines.
- `cli.py:37` calls `capture_and_remove_apt_warning`, which `cli.py` never
  defines, and `installers.py:5` imports it. The only function the name
  can mean is `car_apt_warning`, so `Cli.CaptureExpected` calls
  `Cli.CaptureAptWarning` there, and the apt-filtered check uses it.
- `main.py` is modelled over the outcome of each step (returned, or raised
  an error), given as a function. A failed installer step corresponds to
  raising `InstallationError` with the step's `Notice` text.
- The modelled code keeps several evident slips of the script as written,
  because only the shell oracle judges them:
  - the snap command has two spaces before the package;
  - Chrome's install line is not an f-string, so `./{file_name}` reaches
    apt literally;
  - Fish's last command lacks `apt`;
  - Neovim's chmod line starts with `-u`.
- `install_poetry` builds an `InstallationError` but never raises it, so
  its stderr is `Ignored` and it cannot fail.

## Model

| member | source | states |
|---|---|---|
| OldCli.Comm | old/cli.py:10-11 | A command line made only of whitespace is refused with EmptyCommandError, and only such a line is; any other line runs as its whitespace-split argument vector |
| OldCli.WordsEmptyIffBlank | old/cli.py:10 | `cmd.split()` is empty exactly when every character is whitespace |
| OldCli.WordsAreWords | old/cli.py:10 | every piece of `cmd.split()` is a non-empty run of non-whitespace characters |
| OldCli.WordsKeepEveryNonSpace | old/cli.py:10 | gluing the pieces of `cmd.split()` back together gives the command with exactly its whitespace removed |
| OldCli.WordsOfLayout | old/cli.py:10 | the pieces are the maximal runs: after leading whitespace, a run of non-whitespace that ends at whitespace or at the end of the line is the first piece whole, and the split goes on from there |
| OldCli.Words | old/cli.py:10 | `str.split()` with no argument, defined as skip whitespace, take the longest run, repeat; its properties are the four lemmas above |
| OldCli.CmdConcat | old/cli.py:23-26 | joining no commands gives the empty line, one command gives itself, and the first command always starts the line |
| OldCli.CmdConcatLength | old/cli.py:23-26 | the joined line is as long as all commands together plus four characters for each " && " between neighbours |
| OldCli.CmdConcatSnoc | old/cli.py:23-26 | joining one more command appends " && " and that command to the line |
| OldCli.FirstMatch | old/cli.py:36-38 | `re.compile(msg).search(errs).span()` as a literal search for the leftmost start; its properties are in FirstMatchSpec |
| OldCli.FirstMatchSpec | old/cli.py:36-38 | the search finds a span exactly when the message occurs; the span holds the message, and no earlier position starts one |
| OldCli.ReplaceAll | old/cli.py:40 | `str.replace(t, "")`: scanning left to right, each non-overlapping copy of `t` is deleted; its properties are the three lemmas below |
| OldCli.ReplaceAllShrinks | old/cli.py:40 | `str.replace(t, "")` never lengthens the text, shortens it exactly when `t` occurs, and leaves it unchanged otherwise |
| OldCli.ReplaceAllKeepsOrder | old/cli.py:40 | what `str.replace(t, "")` leaves is a subsequence of its input: it only deletes |
| OldCli.ReplaceAllCount | old/cli.py:40 | the characters `str.replace(t, "")` deletes are, as a multiset of characters, a whole number of copies of `t` |
| OldCli.RemoveRound | old/cli.py:32-41 | one round deletes every occurrence of the message, since the matched text is the message, and strictly shortens the stream |
| OldCli.RemoveExpected | old/cli.py:29-44 | `crm_err_msg` leaves no occurrence of the message, returns a stream without one unchanged, and never lengthens it |
| OldCli.RemoveExpectedLoop | old/cli.py:29-44 | repeating rounds while the message occurs computes `crm_err_msg` and ends with no occurrence left |
| OldCli.RemoveExpectedIdempotent | old/cli.py:29-44 | stripping the stripper's output changes nothing |
| OldCli.RemoveExpectedDeletesCopies | old/cli.py:29-44 | the result is a subsequence of the input, and what is missing is, as a multiset of characters, a whole number of copies of the message |
| OldCli.RemoveExpectedLeadingCopies | old/cli.py:29-44 | any number of copies of the message placed in front of text free of it strip to exactly that text |
| OldCli.BorderedMessageStraddles | old/cli.py:32-42 | copies mixed into message-free text do not always strip back to that text: for a message whose first and last characters agree, the message without its last character is free of it, yet followed by one copy it strips to the message without its first character |
| OldCli.AptWarningStraddles | old/cli.py:47-51 | apt's warning begins and ends with a newline, so the warning without its last newline followed by a warning strips to the warning without its first newline |
| OldCli.StraddleExample | old/cli.py:32-42 | "ab" is free of "aba", yet "ab" followed by "aba" strips to "ba" |
| OldCli.RemoveExpectedOnlyCopies | old/cli.py:29-44 | a stream of back-to-back copies of the message strips to the empty stream |
| OldCli.RemoveAptWarning | old/cli.py:47-51 | `crm_apt_warning` leaves no apt warning, returns a stream without one unchanged, and never lengthens it |
| OldCli.AptWarningScenarios | old/cli.py:47-51 | three warnings strip to nothing; a warning followed by a real apt error strips to exactly the error |
| Cli.CaptureExpected | cli.py:25-39 | `car_expected_err_msg` returns a stream without the message unchanged; otherwise it deletes every occurrence once and then leaves no apt warning; the empty message, which occurs everywhere and whose replacement changes nothing, leads straight to the apt stripper |
| Cli.CaptureAptWarning | cli.py:42-46 | `car_apt_warning` agrees with the self-recursive `crm_apt_warning` and leaves no apt warning |
| Cli.CaptureAptWarningOnlyCopies | cli.py:42-46 | a stderr made only of apt warnings is captured to the empty stream |
| Cli.CaptureExpectedLeavesMessage | cli.py:28-37 | for the message "ab" and the stream "aabb" the result is "ab", which still holds the message |
| Machines.SystemKeysAreTheTable | machine.py:4-12 | the systems the classifier iterates over are exactly the keys of `supported_machines` |
| Machines.LastMatch | machine.py:28-35 | a loop that overwrites its answer on each hit ends with the last key that occurs, or with none when no key occurs |
| Machines.GetMachine | machine.py:15-47 | a result names a supported system and one of its versions, and a refusal is NotSupportedMachineError; Windows is recognised iff "windows" is in the system and "10" in the release; Linux iff "linux" (and not "windows") is in the system and "ubuntu" or "wsl2" is in the release, or in the version when the release is empty |
| Machines.GetMachineIgnoresCase | machine.py:19-24 | classification depends only on the lower-cased uname fields |
| Machines.GetMachineIgnoresVersion | machine.py:33-35 | with a non-empty release the uname version field is never consulted |
| Machines.GetMachineIntended | machine.py:32-35 | the corrected classifier recognises Linux iff some supported version occurs in the release or in the version field |
| Machines.PickEither | machine.py:33-35 | the corrected version loop answers "" exactly when no supported version occurs in either field |
| Machines.UbuntuKernelRefused | machine.py:32-45 | when only the version field says "ubuntu", `get_machine` as written raises NotSupportedMachineError and the corrected classifier answers linux/ubuntu |
| Machines.UbuntuKernelExample | machine.py:32-45 | the uname of a stock Ubuntu kernel (release "5.15.0-58-generic", version "#64-Ubuntu SMP") is refused as written and accepted once corrected |
| Installers.AptFilteredRejects | installers.py:80-83 | an apt command fails exactly when its stderr is non-empty after apt's warning is stripped; stderr made only of warnings never fails |
| Installers.RunCmds | installers.py:139-166 | the `_, errs = comm(cmd)` / `if errs: raise InstallationError(...)` pattern every installer repeats: run the commands in order, stop at the first rejected one with its message; its properties are the lemmas below |
| Installers.RunCmdsSpec | installers.py:139-166 | a step runs a prefix of its commands; it passes exactly when no command is rejected, and then it ran them all |
| Installers.RunCmdsStops | installers.py:139-166 | a failed step ends at a rejected command and carries that command's message, and every command before it passed |
| Installers.RunCmdsAllPass | installers.py:139-166 | when no command is rejected, every command runs and the step passes |
| Installers.RunCmdsFirstFailure | installers.py:139-166 | when command k is the first rejected one, exactly commands 0..k run and the step fails with command k's message |
| Installers.RunCmdsAppend | installers.py:321-375 | running two command lists back to back stops inside the first if it fails, and otherwise continues with the second |
| Installers.PreInstall | installers.py:60-67 | `pre_install` runs `mkdir` on the downloads directory and fails, with its message, exactly when that writes to stderr |
| Installers.InstallAptPkgs | installers.py:70-86 | `install_apt_pkgs` tries the packages in list order; every package tried before the last one left an empty stripped stderr; it passes iff every package does, and then it tried them all; a failure names the last package it tried, whose stripped stderr is non-empty |
| Installers.KeepPartitions | installers.py:99-107 | every snap package lands in exactly one of the flagged and unflagged groups |
| Installers.KeepPreservesOrder | installers.py:99-107 | each group keeps the order of the package list |
| Installers.PartitionSnaps | installers.py:99-107 | the partition loop builds the two groups, which together are a permutation of the list |
| Installers.SnapClassicFirst | installers.py:111-121 | once any unflagged package is attempted, every `--classic` package has been installed without stderr |
| Installers.SnapAllPass | installers.py:111-121 | the two snap loops pass iff every package installs without stderr |
| Installers.SnapStops | installers.py:111-121 | the two snap loops stop at the first package whose command writes to stderr: every package tried before it wrote nothing, the failure names it, and a pass tried every package |
| Installers.InstallSnapPkgs | installers.py:89-125 | `install_snap_pkgs` tries the classic packages before the others, each group in list order; every package tried before the last one wrote nothing to stderr; it passes iff every package installs without stderr, and then it tried them all; a failure names the last package tried, which wrote to stderr |
| Installers.Brave | installers.py:128-166 | `install_brave_browser`: signing key and apt source, where any stderr fails, then the apt install, where only stderr left after stripping apt's warning fails; each with its own message |
| Installers.Docker | installers.py:169-218 | `install_docker`: signing key, apt source, apt install and group set-up, where any stderr fails, even apt's warning alone; each with its own message |
| Installers.Fish | installers.py:221-254 | `install_fish_shell`: ppa file, fingerprint, then the install line as the script spells it (without `apt`); any stderr fails |
| Installers.Chrome | installers.py:257-277 | `install_google_chrome`: download into the downloads directory, then the install line with its unexpanded `{file_name}`; any stderr fails |
| Installers.Neovim | installers.py:280-301 | `install_neovim`: download into the downloads directory, then the chmod line as the script spells it; any stderr fails |
| Installers.Poetry | installers.py:303-319 | `install_poetry`: one script, run with `python3` when it is on the path and `python` otherwise; its stderr is ignored because the error is built but never raised |
| Installers.InstallPoetry | installers.py:303-319 | `install_poetry` runs its one script and passes whatever the script prints |
| Installers.DockerRejectsAptWarning | installers.py:202-206 | Docker's apt command fails on a stderr holding only apt's warning, after the key and source commands ran |
| Installers.BraveAcceptsAptWarning | installers.py:157-164 | Brave's apt command passes on the same stderr, so the whole Brave installer passes |
| Installers.WarningAloneAccepted | installers.py:161-164 | apt's warning on its own passes the filtered check |
| Installers.RunInstallers | installers.py:321-375 | the chain of installers passes iff every installer does; a failure carries the message of the first failing installer, every earlier one having passed |
| Installers.RunCmdsRelabel | installers.py:326-329 | replacing an installer's error with the chain's own message changes only the message |
| Installers.RunInstallersIsFlat | installers.py:321-375 | the chain of fail-fast installers is one fail-fast list of all their commands: nothing after a failing command runs |
| Installers.InstallNotPackaged | installers.py:321-375 | `install_not_ppkd_prog` runs a prefix of the six installers' commands laid end to end, in the script's order |
| Installers.PoetryIsLast | installers.py:368-373 | the last installer in the chain, Poetry's, cannot fail |
| Installers.NotPackagedFailures | installers.py:321-375 | a failure names the first program whose installer failed, every earlier one having passed, and it is never Poetry |
| Installers.NotPackagedPasses | installers.py:321-375 | `install_not_ppkd_prog` passes iff the installers of Brave, Docker, Fish, Chrome and Neovim all pass |
| Installers.RenderCollision | installers.py:270 | two different commands, an apt install of a package named `./{file_name}` and Chrome's install line, have the same text, so a shell over text answers them alike |
| Installers.Cleanup | installers.py:483-496 | `cleanup` removes the downloads directory and then cleans apt's cache, stops at the first stderr, and returns true iff neither wrote to stderr |
| EntryPoint.RunMain | main.py:17-85 | `main` runs the steps in the script's order while they continue; the run is a non-empty prefix of that order, the last step run is the first that did not continue, and the end records how it ended |
| EntryPoint.RunFrom | main.py:23-83 | the handlers of the steps from a given one on: a caught InstallationError ends the run, a caught ImgDownloadError goes on, an uncaught error escapes, and the clean-up's flag ends a full run; its properties are in RunFromShape and RunFromCompletes |
| EntryPoint.RunFromShape | main.py:23-83 | a run is a non-empty prefix of the steps; every step but the last continued, the last did not, and the end records why |
| EntryPoint.RunMainAbortsOnlyOnInstallationError | main.py:23-64 | main stops early only in an installation or post-installation step that raised InstallationError |
| EntryPoint.RunMainReaches | main.py:23-79 | when every earlier step continued, the run reaches a given step |
| EntryPoint.RunMainEscapes | main.py:23-79 | an exception the raising step's handler does not catch leaves main right there |
| EntryPoint.RunFromCompletes | main.py:23-83 | when every step before the clean-up continues, every step runs and the clean-up's result ends the run |
| EntryPoint.RunMainImagesFailureStillCleans | main.py:69-83 | a failed image download is reported and the run goes on to the clean-up |
| EntryPoint.RunMainAllReturn | main.py:23-85 | when every step returns, all seven steps run and the clean-up's flag is the outcome |
| EntryPoint.AbortedExitsZero | main.py:23-64 | an InstallationError stops the run at the step that raised it, and the process still exits with status 0 |

## Left out

- Running commands: `subprocess.Popen`, `communicate`, and the `KeyboardInterrupt` handler of both `comm`s (old/cli.py:13-20, cli.py:9-16). The shell is an input function.
- Printing: every `print` in the core is omitted.
- Regular expressions: the stripper compiles the message as a regular expression. The apt warning contains `.`, which matches any character, so the first match can be a near-copy of the warning that appears earlier in the stream. The model searches for the message literally.
- Decoding: `bytes.decode` and `bytes(s, "utf8")` are taken to be the identity. A stderr that is not valid UTF-8 would raise in the source.
- Recursion depth: Python stops `crm_err_msg` after about a thousand rounds. The model has no such bound.
- OldCli.RemoveExpected: requires a non-empty message. With an empty message the source calls itself on the unchanged stream, since the empty string occurs everywhere and replacing it changes nothing, until Python raises RecursionError; the requires excludes that case.
- OldCli.RemoveExpectedLeadingCopies: proves that copies of the message strip away from message-free text only when every copy is in front of that text. Copies mixed into the text in general do not strip back to it, because a copy can straddle the text and a copy next to it (`OldCli.BorderedMessageStraddles`, with apt's own warning as an instance in `OldCli.AptWarningStraddles`), so no such general promise is made.
- `list_apt_pkgs` and `list_snap_pkgs` (installers.py:15-57) return fixed list literals. The model takes the package lists as parameters, so its results hold for any lists, the script's included.
- Paths and environment: `Path.cwd()` is a parameter, `DOWNLOADS_PATH` is `cwd + "/inst_downloads"`, and `which("python3")` is a boolean parameter.
- `TimeoutExpired` in `install_not_ppkd_prog`: no command sets a timeout, so it cannot arise.
- Post-installation (post_installers.py) and image downloads (imgs.py) are not part of this model. `EntryPoint` takes only their outcomes.
- Import-time failures: `installers.py:5` imports a name that `cli.py` does not define, and `machine.py:2` imports `NotSupportedMachineError` from `exceptions.py`, which lacks it (only `old/exceptions.py` has it). The model assumes both imports resolve.
- Lower-casing: `str.lower` is modelled on ASCII letters only.
- Machines.GetMachine: `platform.uname()` becomes a parameter holding its system, release and version fields.
- The shell oracle is keyed by `Installers.Line` rather than by the rendered text. Two commands with the same text always get the same answer in the source; here two `Line`s that render alike may get different answers, unless the oracle is built with `Installers.ByText`. Such pairs exist: an apt package named `./{file_name}` renders exactly as Chrome's install line (`Installers.RenderCollision`).
- tests.py is not part of this model.

## Findings

| source | as written | input that shows it | evidently intended | confidence | as-written member | corrected member |
|---|---|---|---|---|---|---|
| cli.py:25-37 | after one round of deletion the remainder goes to the apt-warning stripper, not back to the same message | message "ab", stream "aabb": one round deletes the inner "ab" and leaves "ab" | strip the same message until none is left, as `crm_err_msg` in old/cli.py does | not executed | Cli.CaptureExpectedLeavesMessage | OldCli.RemoveExpected |
| machine.py:32-35 | `ver in (release or version)` reads the version field only when the release is empty | uname ("Linux", "5.15.0-58-generic", "#64-Ubuntu SMP") raises NotSupportedMachineError | look for each supported version in the release or in the version field | not executed | Machines.UbuntuKernelExample | Machines.GetMachineIntended |
