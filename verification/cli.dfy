/** cli.py: the current diagnostic stripper `car_expected_err_msg` and its
    apt wrapper `car_apt_warning`. `comm` is the `Shell` oracle and
    `cmd_concat` is the same join as in old/cli.py (`OldCli.CmdConcat`).

    After one round of removal `car_expected_err_msg` hands the remainder to
    `capture_and_remove_apt_warning`, a name that cli.py never defines; the
    only function it can mean is `car_apt_warning`, so the call is modelled
    as `CaptureAptWarning`. The two functions are mutually recursive. */
module Cli {
  import opened Text
  import opened OldCli

  /** `car_expected_err_msg`: if the message occurs, one round deletes every
      occurrence of the matched text and the apt stripper takes over. The
      empty message occurs everywhere and matches the empty text, whose
      replacement changes nothing, so it goes straight to the apt stripper. */
  function CaptureExpected(msg: string, errs: string): (r: string)
    ensures !Contains(msg, errs) ==> r == errs
    ensures msg != "" && Contains(msg, errs) ==> r == RemoveAptWarning(ReplaceAll(errs, msg))
    ensures msg == "" ==> r == RemoveAptWarning(errs)
    ensures Contains(msg, errs) || msg == AptWarning ==> !Contains(AptWarning, r)
    ensures |r| <= |errs|
    decreases |errs|, if msg == "" then 2 else 0
  {
    if msg == "" then CaptureAptWarning(errs)
    else if Contains(msg, errs) then CaptureAptWarning(RemoveRound(msg, errs))
    else errs
  }

  /** `car_apt_warning`: agrees with the self-recursive `crm_apt_warning`, so
      no copy of apt's warning is left. */
  function CaptureAptWarning(errs: string): (r: string)
    ensures r == RemoveAptWarning(errs)
    ensures !Contains(AptWarning, r)
    decreases |errs|, 1
  {
    CaptureExpected(AptWarning, errs)
  }

  /** A stream made only of apt warnings captures to the empty stream. */
  lemma CaptureAptWarningOnlyCopies(n: nat)
    ensures CaptureAptWarning(Repeat(AptWarning, n)) == []
  {
    RemoveExpectedOnlyCopies(AptWarning, n);
  }

  /** For a message other than apt's warning only one round of removal
      happens, so an occurrence formed by that round survives: deleting
      "ab" from "aabb" leaves "ab". */
  lemma CaptureExpectedLeavesMessage()
    ensures CaptureExpected("ab", "aabb") == "ab"
    ensures Contains("ab", CaptureExpected("ab", "aabb"))
  {
    var s := "aabb";
    assert "ab" <= s[1..];
    assert Contains("ab", s[1..]);
    assert s[1] == 'a' && !("ab" <= s);
    assert s[1..][2..] == "b";
    assert ReplaceAll("b", "ab") == "b";
    assert ReplaceAll(s[1..], "ab") == "b";
    assert ReplaceAll(s, "ab") == "ab";
    ShorterNotContained(AptWarning, "ab");
    PrefixContained("ab", "ab");
  }
}
