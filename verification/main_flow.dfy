/** The entry point of the installer (main.py:17-85): a fixed sequence of
    steps, each wrapped in a handler for one kind of error, followed by the
    clean-up. What each step does is modelled elsewhere; here a step is
    known only by how it ended, given as the function `res`. */
module EntryPoint {
  import opened Exceptions

  datatype Step = PreInstall | AptPackages | SnapPackages | OtherPrograms | PostInstall | Images | Cleanup

  /** The steps in the order main.py runs them (lines 23-79). */
  const Order: seq<Step> := [PreInstall, AptPackages, SnapPackages, OtherPrograms, PostInstall, Images, Cleanup]

  /** How a step ended: it returned (the clean-up's flag is the only
      returned value main.py looks at) or it raised. */
  datatype StepResult = Returned(ok: bool) | Raised(error: Error)

  /** How the whole run ended: a handler printed "Exiting..." and returned,
      an exception left main(), or the clean-up was reached and reported. */
  datatype End = Aborted(at: Step) | Escaped(at: Step, error: Error) | Finished(cleanupOk: bool)

  datatype Run = Run(ran: seq<Step>, end: End)

  /** The `except` clause around each step: the image download catches
      ImgDownloadError, the clean-up is not guarded at all, every other
      step catches InstallationError. */
  predicate Caught(s: Step, e: Error)
  {
    match s
    case Images => e.ImgDownloadError?
    case Cleanup => false
    case _ => e.InstallationError?
  }

  /** After this step main.py goes on with the next one: the step returned
      (and is not the last), or it raised an ImgDownloadError from the
      image download, which is reported with "Continuing...". */
  predicate Continues(res: Step -> StepResult, s: Step)
  {
    match res(s)
    case Returned(_) => s != Cleanup
    case Raised(e) => s == Images && Caught(s, e)
  }

  /** The run over `steps`, the remaining part of `Order`; the clean-up
      comes last. */
  function RunFrom(steps: seq<Step>, res: Step -> StepResult): Run
    requires |steps| > 0 && steps[|steps| - 1] == Cleanup
  {
    var s := steps[0];
    match res(s)
    case Raised(e) =>
      if !Caught(s, e) then Run([s], Escaped(s, e))
      else if s == Images then
        var r := RunFrom(steps[1..], res);
        Run([s] + r.ran, r.end)
      else Run([s], Aborted(s))
    case Returned(ok) =>
      if s == Cleanup then Run([s], Finished(ok))
      else
        var r := RunFrom(steps[1..], res);
        Run([s] + r.ran, r.end)
  }

  /** main(), given how each step ends: it runs the steps in order while
      they continue, and the first one that does not ends the run. */
  function RunMain(res: Step -> StepResult): (r: Run)
    ensures 0 < |r.ran| && r.ran <= Order
    ensures forall j :: 0 <= j < |r.ran| - 1 ==> Continues(res, Order[j])
    ensures !Continues(res, r.ran[|r.ran| - 1])
    ensures EndsAt(res, r.ran[|r.ran| - 1], r.end)
  {
    RunFromShape(Order, res);
    RunFrom(Order, res)
  }

  /** The end of a run agrees with how its last step ended. */
  predicate EndsAt(res: Step -> StepResult, last: Step, end: End)
  {
    match end
    case Aborted(at) => at == last && last != Images && res(last).Raised? && Caught(last, res(last).error)
    case Escaped(at, e) => at == last && res(last) == Raised(e) && !Caught(last, e)
    case Finished(ok) => last == Cleanup && res(last) == Returned(ok)
  }

  /** A run is a non-empty prefix of its steps: every step but the last
      continued, the last did not, and the end records why. */
  lemma {:induction false} RunFromShape(steps: seq<Step>, res: Step -> StepResult)
    requires |steps| > 0 && steps[|steps| - 1] == Cleanup
    ensures var r := RunFrom(steps, res);
      0 < |r.ran| && r.ran <= steps
      && (forall j :: 0 <= j < |r.ran| - 1 ==> Continues(res, steps[j]))
      && !Continues(res, r.ran[|r.ran| - 1])
      && EndsAt(res, r.ran[|r.ran| - 1], r.end)
  {
    var s := steps[0];
    var r := RunFrom(steps, res);
    if Continues(res, s) {
      RunFromShape(steps[1..], res);
      var r' := RunFrom(steps[1..], res);
      assert r == Run([s] + r'.ran, r'.end);
      assert steps == [s] + steps[1..];
      forall j | 0 <= j < |r.ran| - 1
        ensures Continues(res, steps[j])
      {
        if j > 0 {
          assert steps[j] == steps[1..][j - 1];
        }
      }
    } else {
      assert r.ran == [s];
    }
  }

  /** The run stops early only in an installation step (not the image
      download, not the clean-up) that raised InstallationError. */
  lemma RunMainAbortsOnlyOnInstallationError(res: Step -> StepResult)
    ensures RunMain(res).end.Aborted? ==>
      var at := RunMain(res).end.at;
      at != Images && at != Cleanup && res(at).Raised? && res(at).error.InstallationError?
  {
    RunFromShape(Order, res);
  }

  /** Every step before position `k` continued, so the run reaches step `k`. */
  lemma RunMainReaches(res: Step -> StepResult, k: nat)
    requires k < |Order|
    requires forall j :: 0 <= j < k ==> Continues(res, Order[j])
    ensures k < |RunMain(res).ran|
  {
    RunFromShape(Order, res);
  }

  /** An exception that the handler of the step that raised it does not
      catch (a CliError, a SameFileError, an ImgDownloadError outside the
      image download, anything from the clean-up) leaves main() there. */
  lemma RunMainEscapes(res: Step -> StepResult, k: nat)
    requires k < |Order|
    requires forall j :: 0 <= j < k ==> Continues(res, Order[j])
    requires res(Order[k]).Raised? && !Caught(Order[k], res(Order[k]).error)
    ensures RunMain(res) == Run(Order[..k + 1], Escaped(Order[k], res(Order[k]).error))
  {
    RunMainReaches(res, k);
    RunFromShape(Order, res);
    var r := RunMain(res);
    assert !Continues(res, Order[k]);
    assert |r.ran| == k + 1;
  }

  /** When every step before the clean-up continues and the clean-up
      returns, every step runs and the clean-up's flag is the outcome. */
  lemma {:induction false} RunFromCompletes(steps: seq<Step>, res: Step -> StepResult)
    requires |steps| > 0 && steps[|steps| - 1] == Cleanup
    requires forall j :: 0 <= j < |steps| - 1 ==> Continues(res, steps[j])
    requires res(Cleanup).Returned?
    ensures RunFrom(steps, res) == Run(steps, Finished(res(Cleanup).ok))
  {
    var s := steps[0];
    if |steps| > 1 {
      assert Continues(res, s);
      RunFromCompletes(steps[1..], res);
      assert steps == [s] + steps[1..];
    }
  }

  /** The first six steps are not the clean-up. */
  lemma OrderBeforeCleanup(j: nat)
    requires j < |Order| - 1
    ensures Order[j] != Cleanup
  {
  }

  /** A failed image download does not stop the run: if every other step
      returned, all seven run and the clean-up's flag is the outcome. */
  lemma RunMainImagesFailureStillCleans(res: Step -> StepResult)
    requires forall s :: s != Images ==> res(s).Returned?
    requires res(Images).Raised? && res(Images).error.ImgDownloadError?
    ensures RunMain(res) == Run(Order, Finished(res(Cleanup).ok))
  {
    forall j | 0 <= j < |Order| - 1
      ensures Continues(res, Order[j])
    {
      OrderBeforeCleanup(j);
    }
    RunFromCompletes(Order, res);
  }

  /** When every step returns, all seven run and the clean-up's flag is
      the outcome. */
  lemma RunMainAllReturn(res: Step -> StepResult)
    requires forall s :: res(s).Returned?
    ensures RunMain(res) == Run(Order, Finished(res(Cleanup).ok))
  {
    forall j | 0 <= j < |Order| - 1
      ensures Continues(res, Order[j])
    {
      OrderBeforeCleanup(j);
    }
    RunFromCompletes(Order, res);
  }

  /** The process exit status: main() returns None on every handled
      failure, so only an escaping exception makes it non-zero. */
  function ExitStatus(e: End): int
  {
    if e.Escaped? then 1 else 0
  }

  /** An installation failure still exits with status 0. */
  lemma AbortedExitsZero(res: Step -> StepResult, k: nat)
    requires k < 5
    requires forall j :: 0 <= j < k ==> res(Order[j]).Returned?
    requires res(Order[k]).Raised? && res(Order[k]).error.InstallationError?
    ensures RunMain(res).end == Aborted(Order[k])
    ensures ExitStatus(RunMain(res).end) == 0
  {
    RunMainReaches(res, k);
    RunFromShape(Order, res);
    var r := RunMain(res);
    assert !Continues(res, Order[k]);
    assert |r.ran| == k + 1;
  }
}
