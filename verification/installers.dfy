/** installers.py: every installation step as a decision procedure over the
    shell oracle. A step is a list of commands, each with the rule that judges
    its stderr and the message of the `InstallationError` raised when that
    rule rejects it; the step runs its commands in order and stops at the
    first rejected one.

    The package lists are parameters, and so are the working directory (the
    parent of the downloads directory) and whether `python3` is on the path. */
module Installers {
  import opened Wrappers
  import opened Text
  import Process
  import OldCli
  import Cli

  /** Every shell command the installation steps issue; `Render` gives the
      exact command line. */
  datatype Line =
    | Mkdir(dir: string)
    | AptInstall(pkg: string)
    | SnapInstall(pkg: string)
    | BraveKey | BraveSource | BraveApt
    | DockerKey | DockerSource | DockerApt | DockerGroup
    | FishSource | FishKey | FishApt
    | ChromeFetch(dir: string) | ChromeApt
    | NeovimFetch(dir: string) | NeovimChmod(dir: string)
    | PoetryScript(python3: bool)
    | RemoveDir(dir: string) | AptClean

  /** The command line of each command, as the script spells it. The Chrome
      install line is not an f-string in the script, so its braces reach the
      shell literally; the snap line has two spaces before the package. */
  function Render(l: Line): string
  {
    match l
    case Mkdir(dir) => "mkdir " + dir
    case AptInstall(pkg) => "apt install -y " + pkg
    case SnapInstall(pkg) => "snap install " + " " + pkg
    case BraveKey =>
      "curl -fsSLo /usr/share/keyrings/brave-browser-archive-keyring.gpg "
      + "https://brave-browser-apt-release.s3.brave.com/brave-browser-archive-keyring.gpg"
    case BraveSource =>
      "echo \"deb [signed-by=/usr/share/keyrings/brave-browser-archive-keyring.gpg arch=amd64] "
      + "https://brave-browser-apt-release.s3.brave.com/ stable main\" | "
      + "tee /etc/apt/sources.list.d/brave-browser-release.list"
    case BraveApt => "apt update -y && apt install -y brave-browser"
    case DockerKey =>
      "curl -fsSL https://download.docker.com/linux/ubuntu/gpg | "
      + "gpg --dearmor -o /usr/share/keyrings/docker-archive-keyring.gpg"
    case DockerSource =>
      "echo \"deb [arch=$(dpkg --print-architecture) signed-by=/usr/share/keyrings/docker-archive-keyring.gpg] "
      + "https://download.docker.com/linux/ubuntu $(lsb_release -cs) stable\" | "
      + "tee /etc/apt/sources.list.d/docker.list > /dev/null"
    case DockerApt => "apt update -y && apt install docker-ce docker-ce-cli containerd.io"
    case DockerGroup => "groupadd docker && usermod -aG docker $USER"
    case FishSource =>
      "echo \"deb http://ppa.launchpad.net/fish-shell/release-3/ubuntu $(lsb_release -cs) main\n"
      + "# deb-src http://ppa.launchpad.net/fish-shell/release-3/ubuntu $(lsb_release -cs) main\""
      + " >> fish-shell-ubuntu-release-3-$(lsb_release -cs).list"
    case FishKey => "apt-key adv --keyserver keyserver.ubuntu.com --recv-keys 59FDA1CE1B84B3FAD89366C027557F056DC33CA5"
    case FishApt => "apt update -y && install -y fish"
    case ChromeFetch(dir) =>
      "cd " + dir + " && curl -O https://dl.google.com/linux/direct/google-chrome-stable_current_amd64.deb"
    case ChromeApt => "apt install -y ./{file_name}"
    case NeovimFetch(dir) =>
      "cd " + dir + " && curl -LO https://github.com/neovim/neovim/releases/latest/download/nvim.appimage"
    case NeovimChmod(dir) => "cd " + dir + " && -u $USER chmod u+x nvim.appimage"
    case PoetryScript(python3) =>
      "curl -sSL https://raw.githubusercontent.com/python-poetry/poetry/master/get-poetry.py | python"
      + (if python3 then "3" else "") + " -"
    case RemoveDir(dir) => "rm -r " + dir
    case AptClean => "apt autoclean && apt clean"
  }

  /** `cli.comm` as the installers see it: what the shell writes for a
      command. The oracle is keyed by the command rather than by its text,
      so two commands with the same text may get different answers here,
      which `ByText` rules out. */
  type Shell = Line -> Process.Output

  /** The shell keyed by command that an oracle over command text induces. */
  function ByText(comm: Process.Shell): Shell
  {
    (l: Line) => comm(Render(l))
  }

  /** Two different commands can share their text: an apt package named like
      Chrome's unexpanded file name renders exactly as Chrome's install line,
      and a shell over text answers both alike. */
  lemma RenderCollision(comm: Process.Shell)
    ensures AptInstall("./{file_name}") != ChromeApt
    ensures Render(AptInstall("./{file_name}")) == Render(ChromeApt)
    ensures ByText(comm)(AptInstall("./{file_name}")) == ByText(comm)(ChromeApt)
  {
  }

  /** How a step judges a command's stderr. */
  datatype Check =
    | Raw          // any stderr at all is a failure
    | AptFiltered  // stderr is a failure only if something beyond apt's warning is left
    | Ignored      // stderr is never a failure

  /** The message of every `InstallationError` the installation steps
      raise; `Say` gives its exact text. */
  datatype Notice =
    | PreInstallFailed
    | PackageFailed(pkg: string)
    | BraveKeyFailed | BraveSourceFailed | BraveAptFailed
    | DockerKeyFailed | DockerSourceFailed | DockerAptFailed | DockerGroupFailed
    | FishSourceFailed | FishKeyFailed | FishAptFailed
    | ChromeFetchFailed | ChromeAptFailed
    | NeovimFetchFailed | NeovimChmodFailed
    | NotInstalled(program: Program)
    | Unreported  // the clean-up's commands: their failure is returned, not raised

  function Say(n: Notice): string
  {
    match n
    case PreInstallFailed => "Failed pre-installation procedure."
    case PackageFailed(pkg) => "Failed to install " + pkg + "."
    case BraveKeyFailed => "Failed to add Brave Browser's fingerprint."
    case BraveSourceFailed => "Failed to add Brave Browser's ppa."
    case BraveAptFailed => "Failed to install Brave Browser's apt package."
    case DockerKeyFailed => "Failed to add Docker's fingerprint."
    case DockerSourceFailed => "Failed to add Docker's ppa."
    case DockerAptFailed => "Failed to install Docker apt packages."
    case DockerGroupFailed => "Failed to add Docker's group and/or add user to Docker's group."
    case FishSourceFailed => "Failed to create Fish's ppa file."
    case FishKeyFailed => "Failed to add Fish's fingerprint."
    case FishAptFailed => "Failed to install Fish shell."
    case ChromeFetchFailed => "Failed to download Google Chrome's .deb file."
    case ChromeAptFailed => "Failed to install Google Chrome from .deb file."
    case NeovimFetchFailed => "Failed to retrieve neovim .appimage file."
    case NeovimChmodFailed => "Failed to make nvim.appimage executable."
    case NotInstalled(BraveBrowser) => "Brave browser was not installed"
    case NotInstalled(DockerEngine) => "Docker was not installed."
    case NotInstalled(FishShell) => "Fish shell was not installed."
    case NotInstalled(GoogleChrome) => "Google Chrome was not installed."
    case NotInstalled(NeovimEditor) => "Neovim was not installed."
    case NotInstalled(PoetryTool) => "Poetry was not installed."
    case Unreported => ""
  }

  /** One command of a step, with its check and the message it fails with. */
  datatype Cmd = Cmd(line: Line, check: Check, onFail: Notice)

  /** The commands a step ran, in order, and how it ended. */
  datatype Trace = Trace(ran: seq<Line>, outcome: Outcome<Notice>)

  predicate Rejects(check: Check, err: string)
  {
    match check
    case Raw => err != ""
    case AptFiltered => err != "" && Cli.CaptureAptWarning(err) != ""
    case Ignored => false
  }

  /** Whether a command fails: a verdict on its line and check. Steps take
      the verdict as a parameter; the shell decides it through `Judge`. */
  type Verdict = (Line, Check) -> bool

  /** The verdict of the shell oracle: run the line, judge its stderr. */
  function Judge(sh: Shell): Verdict
  {
    (line, check) => Rejects(check, sh(line).err)
  }

  predicate Fails(c: Cmd, failed: Verdict)
  {
    failed(c.line, c.check)
  }

  function Lines(cmds: seq<Cmd>): (ls: seq<Line>)
    ensures |ls| == |cmds|
    ensures forall i :: 0 <= i < |cmds| ==> ls[i] == cmds[i].line
  {
    seq(|cmds|, i requires 0 <= i < |cmds| => cmds[i].line)
  }

  /** An apt command fails exactly when its stderr still holds something once
      every copy of apt's warning is gone; a stderr of warnings only passes. */
  lemma {:induction false} AptFilteredRejects(err: string)
    ensures Rejects(AptFiltered, err) <==> OldCli.RemoveAptWarning(err) != ""
    ensures forall n: nat :: !Rejects(AptFiltered, Repeat(OldCli.AptWarning, n))
  {
    forall n: nat ensures !Rejects(AptFiltered, Repeat(OldCli.AptWarning, n)) {
      Cli.CaptureAptWarningOnlyCopies(n);
    }
  }

  /** Runs the commands in order and stops at the first rejected one, whose
      message becomes the step's error. */
  function RunCmds(cmds: seq<Cmd>, failed: Verdict): Trace
    decreases |cmds|
  {
    if |cmds| == 0 then Trace([], Pass)
    else if Fails(cmds[0], failed) then Trace([cmds[0].line], Fail(cmds[0].onFail))
    else
      var rest := RunCmds(cmds[1..], failed);
      Trace([cmds[0].line] + rest.ran, rest.outcome)
  }

  /** What a run of commands does: it runs a prefix of the commands, and it
      passes exactly when no command is rejected, having then run them all. */
  lemma {:induction false} RunCmdsSpec(cmds: seq<Cmd>, failed: Verdict)
    ensures RunCmds(cmds, failed).ran <= Lines(cmds)
    ensures RunCmds(cmds, failed).outcome.Pass? <==> AllPass(cmds, failed)
    ensures RunCmds(cmds, failed).outcome.Pass? ==> |RunCmds(cmds, failed).ran| == |cmds|
    decreases |cmds|
  {
    if |cmds| > 0 {
      AllPassCons(cmds, failed);
      LinesCons(cmds);
      if !Fails(cmds[0], failed) {
        RunCmdsSpec(cmds[1..], failed);
        RunCmdsUnfold(cmds, failed);
      }
    }
  }

  /** A failed run ends at a rejected command, with that command's message,
      and every command before it passed. */
  lemma {:induction false} RunCmdsStops(cmds: seq<Cmd>, failed: Verdict)
    ensures |RunCmds(cmds, failed).ran| <= |cmds|
    ensures RunCmds(cmds, failed).outcome.Fail? ==>
              var n := |RunCmds(cmds, failed).ran|;
              0 < n <= |cmds| && Fails(cmds[n - 1], failed) && RunCmds(cmds, failed).outcome.error == cmds[n - 1].onFail
    ensures forall i :: 0 <= i < |RunCmds(cmds, failed).ran| - 1 ==> !Fails(cmds[i], failed)
    decreases |cmds|
  {
    if |cmds| > 0 && !Fails(cmds[0], failed) {
      RunCmdsStops(cmds[1..], failed);
      RunCmdsUnfold(cmds, failed);
      var rest := RunCmds(cmds[1..], failed);
      forall i | 1 <= i < |rest.ran| ensures !Fails(cmds[i], failed) {
        assert cmds[i] == cmds[1..][i - 1];
      }
      if rest.outcome.Fail? {
        assert cmds[|rest.ran|] == cmds[1..][|rest.ran| - 1];
      }
    }
  }

  predicate AllPass(cmds: seq<Cmd>, failed: Verdict)
  {
    forall i :: 0 <= i < |cmds| ==> !Fails(cmds[i], failed)
  }

  lemma {:induction false} AllPassCons(cmds: seq<Cmd>, failed: Verdict)
    requires |cmds| > 0
    ensures AllPass(cmds, failed) <==> !Fails(cmds[0], failed) && AllPass(cmds[1..], failed)
  {
    if !Fails(cmds[0], failed) && AllPass(cmds[1..], failed) {
      forall i | 0 < i < |cmds| ensures !Fails(cmds[i], failed) {
        assert cmds[i] == cmds[1..][i - 1];
      }
    }
  }

  lemma {:induction false} LinesCons(cmds: seq<Cmd>)
    requires |cmds| > 0
    ensures Lines(cmds) == [cmds[0].line] + Lines(cmds[1..])
  {
  }

  /** When every command passes, all of them run and the step passes. */
  lemma {:induction false} RunCmdsAllPass(cmds: seq<Cmd>, failed: Verdict)
    requires AllPass(cmds, failed)
    ensures RunCmds(cmds, failed) == Trace(Lines(cmds), Pass)
  {
    RunCmdsSpec(cmds, failed);
    var t := RunCmds(cmds, failed);
    assert Lines(cmds)[..|t.ran|] == t.ran;
  }

  /** When command `k` is the first to fail, exactly the commands up to and
      including it run, and the step fails with its message. */
  lemma {:induction false} RunCmdsFirstFailure(cmds: seq<Cmd>, failed: Verdict, k: nat)
    requires k < |cmds| && Fails(cmds[k], failed)
    requires forall i :: 0 <= i < k ==> !Fails(cmds[i], failed)
    ensures RunCmds(cmds, failed) == Trace(Lines(cmds[..k + 1]), Fail(cmds[k].onFail))
  {
    RunCmdsSpec(cmds, failed);
    RunCmdsStops(cmds, failed);
    var t := RunCmds(cmds, failed);
    assert t.outcome.Fail?;
    assert |t.ran| == k + 1;
    assert Lines(cmds)[..k + 1] == Lines(cmds[..k + 1]);
  }

  /** A single command: it runs, and its verdict is the step's. */
  lemma {:induction false} RunOne(c: Cmd, failed: Verdict)
    ensures RunCmds([c], failed) == Trace([c.line], if Fails(c, failed) then Fail(c.onFail) else Pass)
  {
    assert [c][1..] == [];
  }

  /** Two commands in a row, spelled out case by case. */
  lemma {:induction false} RunTwo(a: Cmd, b: Cmd, failed: Verdict)
    ensures RunCmds([a, b], failed) ==
            if Fails(a, failed) then Trace([a.line], Fail(a.onFail))
            else if Fails(b, failed) then Trace([a.line, b.line], Fail(b.onFail))
            else Trace([a.line, b.line], Pass)
  {
    var cmds := [a, b];
    assert Lines(cmds[..1]) == [a.line] && Lines(cmds[..2]) == Lines(cmds) == [a.line, b.line];
    if Fails(a, failed) {
      RunCmdsFirstFailure(cmds, failed, 0);
    } else if Fails(b, failed) {
      RunCmdsFirstFailure(cmds, failed, 1);
    } else {
      RunCmdsAllPass(cmds, failed);
    }
  }

  /** Three commands that all pass all run. */
  lemma {:induction false} RunThreePass(a: Cmd, b: Cmd, c: Cmd, failed: Verdict)
    requires !Fails(a, failed) && !Fails(b, failed) && !Fails(c, failed)
    ensures RunCmds([a, b, c], failed) == Trace([a.line, b.line, c.line], Pass)
  {
    assert [a, b, c][1..] == [b, c];
    RunTwo(b, c, failed);
    RunCmdsUnfold([a, b, c], failed);
  }

  /** Running two command lists back to back is running the first and, only
      if it passes, the second. */
  lemma {:induction false} RunCmdsAppend(a: seq<Cmd>, b: seq<Cmd>, failed: Verdict)
    ensures RunCmds(a, failed).outcome.Fail? ==> RunCmds(a + b, failed) == RunCmds(a, failed)
    ensures RunCmds(a, failed).outcome.Pass? ==>
              RunCmds(a + b, failed) == Trace(RunCmds(a, failed).ran + RunCmds(b, failed).ran, RunCmds(b, failed).outcome)
    decreases |a|
  {
    if |a| == 0 {
      assert a + b == b;
    } else if Fails(a[0], failed) {
      assert (a + b)[0] == a[0];
    } else {
      var ab := a + b;
      assert ab[0] == a[0] && ab[1..] == a[1..] + b;
      RunCmdsAppend(a[1..], b, failed);
      RunCmdsUnfold(a, failed);
      RunCmdsUnfold(ab, failed);
      var ta, tb := RunCmds(a[1..], failed), RunCmds(b, failed);
      assert [a[0].line] + (ta.ran + tb.ran) == ([a[0].line] + ta.ran) + tb.ran;
    }
  }

  /** One step of `RunCmds` past a passing command. */
  lemma {:induction false} RunCmdsUnfold(cmds: seq<Cmd>, failed: Verdict)
    requires |cmds| > 0 && !Fails(cmds[0], failed)
    ensures RunCmds(cmds, failed) ==
            Trace([cmds[0].line] + RunCmds(cmds[1..], failed).ran, RunCmds(cmds[1..], failed).outcome)
  {
  }

  // ---------------------------------------------------------------------
  // pre_install, install_apt_pkgs, install_snap_pkgs
  // ---------------------------------------------------------------------

  /** `DOWNLOADS_PATH`. */
  function Downloads(cwd: string): string
  {
    cwd + "/inst_downloads"
  }

  /** `pre_install`: create the downloads directory. */
  function PreInstall(cwd: string, sh: Shell): (t: Trace)
    ensures t.ran == [Mkdir(Downloads(cwd))]
    ensures t.outcome.Pass? <==> sh(Mkdir(Downloads(cwd))).err == ""
    ensures t.outcome.Fail? ==> t.outcome.error == PreInstallFailed
  {
    var c := Cmd(Mkdir(Downloads(cwd)), Raw, PreInstallFailed);
    RunOne(c, Judge(sh));
    RunCmds([c], Judge(sh))
  }

  function AptCmds(pkgs: seq<string>): (cmds: seq<Cmd>)
    ensures |cmds| == |pkgs|
    ensures forall i :: 0 <= i < |pkgs| ==> cmds[i] == Cmd(AptInstall(pkgs[i]), AptFiltered, PackageFailed(pkgs[i]))
  {
    seq(|pkgs|, i requires 0 <= i < |pkgs| => Cmd(AptInstall(pkgs[i]), AptFiltered, PackageFailed(pkgs[i])))
  }

  /** A package installs cleanly when its stderr is empty once apt's warning
      is stripped. */
  predicate InstallsCleanly(sh: Shell, pkg: string)
  {
    OldCli.RemoveAptWarning(sh(AptInstall(pkg)).err) == ""
  }

  lemma {:induction false} AptCmdsFail(pkgs: seq<string>, sh: Shell)
    ensures forall i :: 0 <= i < |pkgs| ==> (Fails(AptCmds(pkgs)[i], Judge(sh)) <==> !InstallsCleanly(sh, pkgs[i]))
  {
    forall i | 0 <= i < |pkgs|
      ensures Fails(AptCmds(pkgs)[i], Judge(sh)) <==> !InstallsCleanly(sh, pkgs[i])
    {
      AptFilteredRejects(sh(AptInstall(pkgs[i])).err);
    }
  }

  /** The apt loop tries the packages in list order, and passes exactly when
      every package installs cleanly, having then tried them all. */
  lemma {:induction false} AptRunPass(pkgs: seq<string>, sh: Shell)
    ensures var t := RunCmds(AptCmds(pkgs), Judge(sh));
      && |t.ran| <= |pkgs|
      && (forall i :: 0 <= i < |t.ran| ==> t.ran[i] == AptInstall(pkgs[i]))
      && (t.outcome.Pass? <==> forall i :: 0 <= i < |pkgs| ==> InstallsCleanly(sh, pkgs[i]))
      && (t.outcome.Pass? ==> |t.ran| == |pkgs|)
  {
    var cmds := AptCmds(pkgs);
    var t := RunCmds(cmds, Judge(sh));
    AptCmdsFail(pkgs, sh);
    RunCmdsSpec(cmds, Judge(sh));
    forall i | 0 <= i < |t.ran| ensures t.ran[i] == AptInstall(pkgs[i]) {
      assert t.ran[i] == Lines(cmds)[i];
    }
  }

  /** The apt loop fails fast: every package tried before the last one
      installed cleanly, and a failure names the last one tried, which did not. */
  lemma {:induction false} AptRunStops(pkgs: seq<string>, sh: Shell)
    ensures var t := RunCmds(AptCmds(pkgs), Judge(sh));
      && |t.ran| <= |pkgs|
      && (forall i :: 0 <= i < |t.ran| - 1 ==> InstallsCleanly(sh, pkgs[i]))
      && (t.outcome.Fail? ==>
            && 0 < |t.ran| <= |pkgs|
            && !InstallsCleanly(sh, pkgs[|t.ran| - 1])
            && t.outcome.error == PackageFailed(pkgs[|t.ran| - 1]))
  {
    var cmds := AptCmds(pkgs);
    AptCmdsFail(pkgs, sh);
    RunCmdsStops(cmds, Judge(sh));
  }

  /** `install_apt_pkgs`: one `apt install` per package, in list order; a
      package fails only if its stderr is non-empty once apt's warning is
      stripped, and no package after a failed one is attempted. */
  function InstallAptPkgs(pkgs: seq<string>, sh: Shell): (t: Trace)
    ensures |t.ran| <= |pkgs|
    ensures forall i :: 0 <= i < |t.ran| ==> t.ran[i] == AptInstall(pkgs[i])
    ensures t.outcome.Pass? <==> forall i :: 0 <= i < |pkgs| ==> InstallsCleanly(sh, pkgs[i])
    ensures t.outcome.Pass? ==> |t.ran| == |pkgs|
    ensures forall i :: 0 <= i < |t.ran| - 1 ==> InstallsCleanly(sh, pkgs[i])
    ensures t.outcome.Fail? ==>
              && 0 < |t.ran|
              && !InstallsCleanly(sh, pkgs[|t.ran| - 1])
              && t.outcome.error == PackageFailed(pkgs[|t.ran| - 1])
  {
    AptRunPass(pkgs, sh);
    AptRunStops(pkgs, sh);
    RunCmds(AptCmds(pkgs), Judge(sh))
  }

  const ClassicFlag: string := "--classic"

  predicate IsClassic(pkg: string)
  {
    Contains(ClassicFlag, pkg)
  }

  /** The packages whose classic flag is `flagged`, in list order. */
  function Keep(pkgs: seq<string>, flagged: bool): (r: seq<string>)
    ensures forall i :: 0 <= i < |r| ==> IsClassic(r[i]) == flagged
    decreases |pkgs|
  {
    if |pkgs| == 0 then []
    else Keep(pkgs[..|pkgs| - 1], flagged) + (if IsClassic(pkgs[|pkgs| - 1]) == flagged then [pkgs[|pkgs| - 1]] else [])
  }

  /** The two groups split the list: each package lands in exactly one of
      them. */
  lemma {:induction false} KeepPartitions(pkgs: seq<string>)
    ensures multiset(Keep(pkgs, true)) + multiset(Keep(pkgs, false)) == multiset(pkgs)
    decreases |pkgs|
  {
    if |pkgs| > 0 {
      var init := pkgs[..|pkgs| - 1];
      var last := pkgs[|pkgs| - 1];
      KeepPartitions(init);
      assert pkgs == init + [last];
      assert multiset(pkgs) == multiset(init) + multiset{last};
      if IsClassic(last) {
        assert Keep(pkgs, true) == Keep(init, true) + [last];
        assert Keep(pkgs, false) == Keep(init, false);
      } else {
        assert Keep(pkgs, true) == Keep(init, true);
        assert Keep(pkgs, false) == Keep(init, false) + [last];
      }
    }
  }

  /** Each group keeps the list's order. */
  lemma {:induction false} KeepPreservesOrder(pkgs: seq<string>, flagged: bool)
    ensures IsSubsequence(Keep(pkgs, flagged), pkgs)
    decreases |pkgs|
  {
    if |pkgs| > 0 {
      var init := pkgs[..|pkgs| - 1];
      var last := pkgs[|pkgs| - 1];
      KeepPreservesOrder(init, flagged);
      assert pkgs == init + [last];
      SubsequenceSnoc(Keep(init, flagged), init, last, IsClassic(last) == flagged);
    }
  }

  /** Extending both sides by the same last element, or only the longer
      one, keeps a subsequence a subsequence. */
  lemma {:induction false} SubsequenceSnoc<T>(a: seq<T>, b: seq<T>, x: T, keep: bool)
    requires IsSubsequence(a, b)
    ensures IsSubsequence(a + (if keep then [x] else []), b + [x])
    decreases |b|
  {
    var a' := a + (if keep then [x] else []);
    if |b| == 0 {
      if keep {
        assert a' == [x] && a == [];
        assert (b + [x])[1..] == [];
      } else {
        assert (b + [x])[1..] == [];
      }
    } else {
      assert (b + [x])[1..] == b[1..] + [x];
      if IsSubsequence(a, b[1..]) {
        SubsequenceSnoc(a, b[1..], x, keep);
      } else {
        SubsequenceSnoc(a[1..], b[1..], x, keep);
        assert a'[1..] == a[1..] + (if keep then [x] else []);
      }
    }
  }

  /** The partition loop of `install_snap_pkgs`: one pass appending every
      package to the flagged or the unflagged group. */
  method PartitionSnaps(pkgs: seq<string>) returns (flagged: seq<string>, unflagged: seq<string>)
    ensures flagged == Keep(pkgs, true) && unflagged == Keep(pkgs, false)
    ensures multiset(flagged) + multiset(unflagged) == multiset(pkgs)
  {
    flagged, unflagged := [], [];
    for i := 0 to |pkgs|
      invariant flagged == Keep(pkgs[..i], true)
      invariant unflagged == Keep(pkgs[..i], false)
    {
      assert pkgs[..i + 1][..i] == pkgs[..i];
      if Contains(ClassicFlag, pkgs[i]) {
        flagged := flagged + [pkgs[i]];
      } else {
        unflagged := unflagged + [pkgs[i]];
      }
    }
    assert pkgs[..|pkgs|] == pkgs;
    KeepPartitions(pkgs);
  }

  function SnapCmds(pkgs: seq<string>): (cmds: seq<Cmd>)
    ensures |cmds| == |pkgs|
    ensures forall i :: 0 <= i < |pkgs| ==> cmds[i] == Cmd(SnapInstall(pkgs[i]), Raw, PackageFailed(pkgs[i]))
  {
    seq(|pkgs|, i requires 0 <= i < |pkgs| => Cmd(SnapInstall(pkgs[i]), Raw, PackageFailed(pkgs[i])))
  }

  /** A list of snap commands all pass exactly when every package's command
      writes nothing to stderr. */
  lemma {:induction false} SnapCmdsPass(ps: seq<string>, sh: Shell)
    ensures (forall i :: 0 <= i < |ps| ==> !Fails(SnapCmds(ps)[i], Judge(sh)))
        <==> (forall p :: p in ps ==> sh(SnapInstall(p)).err == "")
  {
    var cmds := SnapCmds(ps);
    if forall i :: 0 <= i < |ps| ==> !Fails(cmds[i], Judge(sh)) {
      forall p | p in ps ensures sh(SnapInstall(p)).err == "" {
        var i :| 0 <= i < |ps| && ps[i] == p;
        assert !Fails(cmds[i], Judge(sh));
      }
    }
  }

  lemma {:induction false} KeepMembers(pkgs: seq<string>)
    ensures forall p :: p in pkgs <==> p in Keep(pkgs, true) || p in Keep(pkgs, false)
  {
    KeepPartitions(pkgs);
    forall p ensures p in pkgs <==> p in Keep(pkgs, true) || p in Keep(pkgs, false) {
      assert p in pkgs <==> p in multiset(pkgs);
      assert p in Keep(pkgs, true) <==> p in multiset(Keep(pkgs, true));
      assert p in Keep(pkgs, false) <==> p in multiset(Keep(pkgs, false));
    }
  }

  function SnapRunCmds(pkgs: seq<string>): seq<Cmd>
  {
    SnapCmds(Keep(pkgs, true)) + SnapCmds(Keep(pkgs, false))
  }

  /** A snap command: installs one package, fails on any stderr, and names
      that package when it fails. */
  predicate SnapShaped(c: Cmd)
  {
    c.line.SnapInstall? && c.check == Raw && c.onFail == PackageFailed(c.line.pkg)
  }

  lemma {:induction false} SnapRunCmdsShaped(pkgs: seq<string>)
    ensures |SnapRunCmds(pkgs)| == |pkgs|
    ensures forall i :: 0 <= i < |SnapRunCmds(pkgs)| ==> SnapShaped(SnapRunCmds(pkgs)[i])
  {
    var classic := SnapCmds(Keep(pkgs, true));
    var plain := SnapCmds(Keep(pkgs, false));
    KeepPartitions(pkgs);
    assert |multiset(Keep(pkgs, true)) + multiset(Keep(pkgs, false))| == |multiset(pkgs)|;
    forall i | 0 <= i < |classic + plain| ensures SnapShaped((classic + plain)[i]) {
      if i < |classic| {
        assert (classic + plain)[i] == classic[i];
      } else {
        assert (classic + plain)[i] == plain[i - |classic|];
      }
    }
  }

  /** The two snap loops fail fast: every package tried before the last one
      wrote nothing to stderr, a failure names the last package tried, whose
      command wrote to stderr, and a pass tried every package. */
  lemma {:induction false} SnapStops(pkgs: seq<string>, sh: Shell)
    ensures var t := RunCmds(SnapRunCmds(pkgs), Judge(sh));
      && (t.outcome.Pass? ==> |t.ran| == |pkgs|)
      && (forall i :: 0 <= i < |t.ran| - 1 ==> sh(t.ran[i]).err == "")
      && (t.outcome.Fail? ==>
            && 0 < |t.ran| && t.ran[|t.ran| - 1].SnapInstall?
            && sh(t.ran[|t.ran| - 1]).err != ""
            && t.outcome.error == PackageFailed(t.ran[|t.ran| - 1].pkg))
  {
    var cmds := SnapRunCmds(pkgs);
    var t := RunCmds(cmds, Judge(sh));
    SnapRunCmdsShaped(pkgs);
    RunCmdsSpec(cmds, Judge(sh));
    RunCmdsStops(cmds, Judge(sh));
    assert Lines(cmds)[..|t.ran|] == t.ran;
    forall i | 0 <= i < |t.ran| ensures t.ran[i] == cmds[i].line && SnapShaped(cmds[i]) {
      assert t.ran[i] == Lines(cmds)[i];
    }
  }

  lemma {:induction false} SnapClassicFirst(pkgs: seq<string>, sh: Shell)
    ensures |RunCmds(SnapRunCmds(pkgs), Judge(sh)).ran| > |Keep(pkgs, true)|
            ==> forall p :: p in Keep(pkgs, true) ==> sh(SnapInstall(p)).err == ""
  {
    var classic := SnapCmds(Keep(pkgs, true));
    var plain := SnapCmds(Keep(pkgs, false));
    RunCmdsAppend(classic, plain, Judge(sh));
    RunCmdsSpec(classic, Judge(sh));
    SnapCmdsPass(Keep(pkgs, true), sh);
  }

  lemma {:induction false} SnapAllPass(pkgs: seq<string>, sh: Shell)
    ensures RunCmds(SnapRunCmds(pkgs), Judge(sh)).outcome.Pass? <==> forall p :: p in pkgs ==> sh(SnapInstall(p)).err == ""
  {
    var classic := SnapCmds(Keep(pkgs, true));
    var plain := SnapCmds(Keep(pkgs, false));
    RunCmdsAppend(classic, plain, Judge(sh));
    RunCmdsSpec(classic, Judge(sh));
    RunCmdsSpec(plain, Judge(sh));
    SnapCmdsPass(Keep(pkgs, true), sh);
    SnapCmdsPass(Keep(pkgs, false), sh);
    KeepMembers(pkgs);
  }

  /** `install_snap_pkgs`: every `--classic` package is attempted, in list
      order, before any unflagged one; any stderr fails the package, and
      nothing after a failed package is attempted. */
  function InstallSnapPkgs(pkgs: seq<string>, sh: Shell): (t: Trace)
    ensures t.ran <= Lines(SnapCmds(Keep(pkgs, true))) + Lines(SnapCmds(Keep(pkgs, false)))
    ensures |t.ran| > |Keep(pkgs, true)| ==> forall p :: p in Keep(pkgs, true) ==> sh(SnapInstall(p)).err == ""
    ensures t.outcome.Pass? <==> forall p :: p in pkgs ==> sh(SnapInstall(p)).err == ""
    ensures t.outcome.Pass? ==> |t.ran| == |pkgs|
    ensures forall i :: 0 <= i < |t.ran| - 1 ==> sh(t.ran[i]).err == ""
    ensures t.outcome.Fail? ==>
              && 0 < |t.ran| && t.ran[|t.ran| - 1].SnapInstall?
              && sh(t.ran[|t.ran| - 1]).err != ""
              && t.outcome.error == PackageFailed(t.ran[|t.ran| - 1].pkg)
  {
    var classic := SnapCmds(Keep(pkgs, true));
    var plain := SnapCmds(Keep(pkgs, false));
    assert Lines(classic + plain) == Lines(classic) + Lines(plain);
    SnapClassicFirst(pkgs, sh);
    SnapAllPass(pkgs, sh);
    SnapStops(pkgs, sh);
    RunCmdsSpec(SnapRunCmds(pkgs), Judge(sh));
    RunCmds(SnapRunCmds(pkgs), Judge(sh))
  }

  // ---------------------------------------------------------------------
  // install_not_ppkd_prog and the installers it runs
  // ---------------------------------------------------------------------

  /** `install_brave_browser`: signing key, apt source, then the apt package;
      only the last command filters apt's warning. */
  function Brave(): seq<Cmd>
  {
    [ Cmd(BraveKey, Raw, BraveKeyFailed),
      Cmd(BraveSource, Raw, BraveSourceFailed),
      Cmd(BraveApt, AptFiltered, BraveAptFailed) ]
  }

  /** `install_docker`: every command, the apt one included, fails on any stderr. */
  function Docker(): seq<Cmd>
  {
    [ Cmd(DockerKey, Raw, DockerKeyFailed),
      Cmd(DockerSource, Raw, DockerSourceFailed),
      Cmd(DockerApt, Raw, DockerAptFailed),
      Cmd(DockerGroup, Raw, DockerGroupFailed) ]
  }

  /** `install_fish_shell`. */
  function Fish(): seq<Cmd>
  {
    [ Cmd(FishSource, Raw, FishSourceFailed),
      Cmd(FishKey, Raw, FishKeyFailed),
      Cmd(FishApt, Raw, FishAptFailed) ]
  }

  /** `install_google_chrome`. */
  function Chrome(cwd: string): seq<Cmd>
  {
    [ Cmd(ChromeFetch(Downloads(cwd)), Raw, ChromeFetchFailed),
      Cmd(ChromeApt, Raw, ChromeAptFailed) ]
  }

  /** `install_neovim`. */
  function Neovim(cwd: string): seq<Cmd>
  {
    [ Cmd(NeovimFetch(Downloads(cwd)), Raw, NeovimFetchFailed),
      Cmd(NeovimChmod(Downloads(cwd)), Raw, NeovimChmodFailed) ]
  }

  /** `install_poetry`: the error it builds on stderr is never raised, so its
      stderr is ignored. */
  function Poetry(hasPython3: bool): seq<Cmd>
  {
    [ Cmd(PoetryScript(hasPython3), Ignored, NotInstalled(PoetryTool)) ]
  }

  /** `install_poetry` runs its one command and succeeds whatever it prints. */
  function InstallPoetry(hasPython3: bool, sh: Shell): (t: Trace)
    ensures t == Trace([PoetryScript(hasPython3)], Pass)
  {
    var c := Cmd(PoetryScript(hasPython3), Ignored, NotInstalled(PoetryTool));
    assert Poetry(hasPython3) == [c];
    assert !Rejects(Ignored, sh(c.line).err);
    RunOne(c, Judge(sh));
    RunCmds(Poetry(hasPython3), Judge(sh))
  }

  /** Docker's apt step does not filter apt's warning: once the first two
      commands pass, a stderr holding only that warning fails the install. */
  lemma {:induction false} DockerRejectsAptWarning(sh: Shell)
    requires sh(DockerKey).err == "" && sh(DockerSource).err == ""
    requires sh(DockerApt).err == OldCli.AptWarning
    ensures RunCmds(Docker(), Judge(sh)) == Trace([DockerKey, DockerSource, DockerApt], Fail(DockerAptFailed))
  {
    var d := Docker();
    assert Lines(d[..3]) == [DockerKey, DockerSource, DockerApt];
    RunCmdsFirstFailure(d, Judge(sh), 2);
  }

  /** Brave's apt step does filter it: the same stderr lets it pass. */
  lemma {:induction false} BraveAcceptsAptWarning(sh: Shell)
    requires sh(BraveKey).err == "" && sh(BraveSource).err == ""
    requires sh(BraveApt).err == OldCli.AptWarning
    ensures RunCmds(Brave(), Judge(sh)) == Trace([BraveKey, BraveSource, BraveApt], Pass)
  {
    var b := Brave();
    WarningAloneAccepted();
    RunThreePass(b[0], b[1], b[2], Judge(sh));
  }

  /** apt's warning on its own passes the filtered check. */
  lemma WarningAloneAccepted()
    ensures !Rejects(AptFiltered, OldCli.AptWarning)
  {
    AptFilteredRejects(OldCli.AptWarning);
    assert Repeat(OldCli.AptWarning, 1) == OldCli.AptWarning;
  }

  /** An installer run inside `install_not_ppkd_prog`: its commands and the
      message of the `InstallationError` its failure is turned into. */
  datatype Installer = Installer(cmds: seq<Cmd>, onFail: Notice)

  /** The programs `install_not_ppkd_prog` installs, in the order it calls
      their installers. */
  datatype Program = BraveBrowser | DockerEngine | FishShell | GoogleChrome | NeovimEditor | PoetryTool

  const NotPackaged: seq<Program> := [BraveBrowser, DockerEngine, FishShell, GoogleChrome, NeovimEditor, PoetryTool]

  /** The commands of each program's installer. */
  function Steps(p: Program, cwd: string, hasPython3: bool): seq<Cmd>
  {
    match p
    case BraveBrowser => Brave()
    case DockerEngine => Docker()
    case FishShell => Fish()
    case GoogleChrome => Chrome(cwd)
    case NeovimEditor => Neovim(cwd)
    case PoetryTool => Poetry(hasPython3)
  }

  function OtherInstallers(cwd: string, hasPython3: bool): (subs: seq<Installer>)
    ensures |subs| == |NotPackaged|
    ensures forall k :: 0 <= k < |NotPackaged| ==>
              subs[k] == Installer(Steps(NotPackaged[k], cwd, hasPython3), NotInstalled(NotPackaged[k]))
  {
    seq(|NotPackaged|, k requires 0 <= k < |NotPackaged| =>
          Installer(Steps(NotPackaged[k], cwd, hasPython3), NotInstalled(NotPackaged[k])))
  }

  /** Runs the installers in order; the first failing one stops the run and
      its own message replaces the inner one. */
  function RunInstallers(subs: seq<Installer>, failed: Verdict): (t: Trace)
    ensures t.outcome.Pass? <==> forall k :: 0 <= k < |subs| ==> RunCmds(subs[k].cmds, failed).outcome.Pass?
    ensures t.outcome.Fail? ==>
              exists k :: && 0 <= k < |subs| && t.outcome.error == subs[k].onFail
                          && RunCmds(subs[k].cmds, failed).outcome.Fail?
                          && forall j :: 0 <= j < k ==> RunCmds(subs[j].cmds, failed).outcome.Pass?
    decreases |subs|
  {
    if |subs| == 0 then Trace([], Pass)
    else
      var first := RunCmds(subs[0].cmds, failed);
      if first.outcome.Fail? then Trace(first.ran, Fail(subs[0].onFail))
      else
        var rest := RunInstallers(subs[1..], failed);
        assert forall k :: 0 < k < |subs| ==> subs[k] == subs[1..][k - 1];
        Trace(first.ran + rest.ran, rest.outcome)
  }

  /** Every command of a list, failing with one common message. */
  function Relabel(cmds: seq<Cmd>, msg: Notice): (r: seq<Cmd>)
    ensures |r| == |cmds|
    ensures forall i :: 0 <= i < |cmds| ==> r[i] == cmds[i].(onFail := msg)
  {
    seq(|cmds|, i requires 0 <= i < |cmds| => cmds[i].(onFail := msg))
  }

  /** All the installers' commands in order, each failing with its
      installer's message. */
  function Flatten(subs: seq<Installer>): seq<Cmd>
  {
    if |subs| == 0 then [] else Relabel(subs[0].cmds, subs[0].onFail) + Flatten(subs[1..])
  }

  /** Relabelling changes only the message a failure carries. */
  lemma {:induction false} RunCmdsRelabel(cmds: seq<Cmd>, msg: Notice, failed: Verdict)
    ensures RunCmds(Relabel(cmds, msg), failed).ran == RunCmds(cmds, failed).ran
    ensures RunCmds(Relabel(cmds, msg), failed).outcome ==
            (if RunCmds(cmds, failed).outcome.Pass? then Pass else Fail(msg))
    decreases |cmds|
  {
    if |cmds| > 0 {
      var r := Relabel(cmds, msg);
      assert r[1..] == Relabel(cmds[1..], msg);
      RunCmdsRelabel(cmds[1..], msg, failed);
    }
  }

  /** Installers that stop at the first failing installer are one command
      list that stops at the first failing command: nothing after the
      failing command runs, in its installer or any later one. */
  lemma {:induction false} RunInstallersIsFlat(subs: seq<Installer>, failed: Verdict)
    ensures RunInstallers(subs, failed) == RunCmds(Flatten(subs), failed)
    decreases |subs|
  {
    if |subs| > 0 {
      var head := Relabel(subs[0].cmds, subs[0].onFail);
      RunCmdsRelabel(subs[0].cmds, subs[0].onFail, failed);
      RunCmdsAppend(head, Flatten(subs[1..]), failed);
      RunInstallersIsFlat(subs[1..], failed);
    }
  }

  /** When the last installer cannot fail, a failed run failed at an
      earlier one. */
  lemma {:induction false} RunInstallersLastPasses(subs: seq<Installer>, failed: Verdict)
    requires |subs| > 0 && RunCmds(subs[|subs| - 1].cmds, failed).outcome.Pass?
    ensures RunInstallers(subs, failed).outcome.Fail? ==>
              exists k :: && 0 <= k < |subs| - 1 && RunInstallers(subs, failed).outcome.error == subs[k].onFail
                          && RunCmds(subs[k].cmds, failed).outcome.Fail?
                          && forall j :: 0 <= j < k ==> RunCmds(subs[j].cmds, failed).outcome.Pass?
  {
  }

  /** `install_not_ppkd_prog`: Brave, Docker, Fish, Chrome, Neovim and Poetry
      in that order, fail-fast; `TimeoutExpired` cannot arise since no
      command has a timeout. */
  function InstallNotPackaged(cwd: string, hasPython3: bool, sh: Shell): (t: Trace)
    ensures t.ran <= Lines(Flatten(OtherInstallers(cwd, hasPython3)))
  {
    var subs := OtherInstallers(cwd, hasPython3);
    RunInstallersIsFlat(subs, Judge(sh));
    RunCmdsSpec(Flatten(subs), Judge(sh));
    RunInstallers(subs, Judge(sh))
  }

  /** The last installer, Poetry's, cannot fail. */
  lemma PoetryIsLast(cwd: string, hasPython3: bool, sh: Shell)
    ensures RunCmds(OtherInstallers(cwd, hasPython3)[|NotPackaged| - 1].cmds, Judge(sh)).outcome.Pass?
  {
    assert NotPackaged[5] == PoetryTool;
    assert InstallPoetry(hasPython3, sh).outcome.Pass?;
  }

  /** A failed `install_not_ppkd_prog` names the first program whose installer
      failed, every earlier one having succeeded; it is never Poetry, whose
      installer cannot fail. */
  lemma {:induction false} NotPackagedFailures(cwd: string, hasPython3: bool, sh: Shell)
    ensures InstallNotPackaged(cwd, hasPython3, sh).outcome.Fail? ==>
              exists k :: && 0 <= k < |NotPackaged| - 1
                          && InstallNotPackaged(cwd, hasPython3, sh).outcome.error == NotInstalled(NotPackaged[k])
                          && RunCmds(Steps(NotPackaged[k], cwd, hasPython3), Judge(sh)).outcome.Fail?
                          && forall j :: 0 <= j < k ==> RunCmds(Steps(NotPackaged[j], cwd, hasPython3), Judge(sh)).outcome.Pass?
  {
    var subs := OtherInstallers(cwd, hasPython3);
    var t := RunInstallers(subs, Judge(sh));
    assert InstallNotPackaged(cwd, hasPython3, sh) == t;
    PoetryIsLast(cwd, hasPython3, sh);
    RunInstallersLastPasses(subs, Judge(sh));
    if t.outcome.Fail? {
      var k :| && 0 <= k < |subs| - 1 && t.outcome.error == subs[k].onFail
               && RunCmds(subs[k].cmds, Judge(sh)).outcome.Fail?
               && forall j :: 0 <= j < k ==> RunCmds(subs[j].cmds, Judge(sh)).outcome.Pass?;
      assert subs[k] == Installer(Steps(NotPackaged[k], cwd, hasPython3), NotInstalled(NotPackaged[k]));
      forall j | 0 <= j < k
        ensures RunCmds(Steps(NotPackaged[j], cwd, hasPython3), Judge(sh)).outcome.Pass?
      {
        assert subs[j].cmds == Steps(NotPackaged[j], cwd, hasPython3);
      }
      assert t.outcome.error == NotInstalled(NotPackaged[k]);
    }
  }

  /** `install_not_ppkd_prog` succeeds exactly when the installers of the
      first five programs all do. */
  lemma {:induction false} NotPackagedPasses(cwd: string, hasPython3: bool, sh: Shell)
    ensures InstallNotPackaged(cwd, hasPython3, sh).outcome.Pass? <==>
              forall k :: 0 <= k < |NotPackaged| - 1 ==> RunCmds(Steps(NotPackaged[k], cwd, hasPython3), Judge(sh)).outcome.Pass?
  {
    var subs := OtherInstallers(cwd, hasPython3);
    var t := RunInstallers(subs, Judge(sh));
    assert InstallNotPackaged(cwd, hasPython3, sh) == t;
    PoetryIsLast(cwd, hasPython3, sh);
    forall k | 0 <= k < |NotPackaged|
      ensures subs[k].cmds == Steps(NotPackaged[k], cwd, hasPython3)
    {
    }
  }

  // ---------------------------------------------------------------------
  // cleanup
  // ---------------------------------------------------------------------

  /** `cleanup`: remove the downloads directory, then clean apt's cache;
      the first stderr ends it with `False`. Its commands carry no message. */
  function Cleanup(cwd: string, sh: Shell): (r: (seq<Line>, bool))
    ensures r.1 <==> sh(RemoveDir(Downloads(cwd))).err == "" && sh(AptClean).err == ""
    ensures sh(RemoveDir(Downloads(cwd))).err != "" ==> r.0 == [RemoveDir(Downloads(cwd))]
    ensures sh(RemoveDir(Downloads(cwd))).err == "" ==> r.0 == [RemoveDir(Downloads(cwd)), AptClean]
  {
    var rm := Cmd(RemoveDir(Downloads(cwd)), Raw, Unreported);
    var clean := Cmd(AptClean, Raw, Unreported);
    RunTwo(rm, clean, Judge(sh));
    var t := RunCmds([rm, clean], Judge(sh));
    (t.ran, t.outcome.Pass?)
  }
}
