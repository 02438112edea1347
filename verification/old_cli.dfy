/** old/cli.py: the argument-vector guard of `comm`, `cmd_concat`, and the
    self-recursive diagnostic stripper `crm_err_msg` with its apt wrapper.

    The stripper works on decoded text and searches with a compiled regular
    expression built from the message; here the search is a literal
    substring search and decoding is the identity. */
module OldCli {
  import opened Wrappers
  import opened Exceptions
  import opened Process
  import opened Text

  // ---------------------------------------------------------------------
  // comm: the empty-command guard
  // ---------------------------------------------------------------------

  /** Python's `str.isspace`: the separators of `str.split()` without arguments. */
  predicate IsSpace(c: char)
  {
    || c == ' '
    || '\t' <= c <= '\r'
    || '\U{1c}' <= c <= '\U{1f}'
    || c == '\U{85}' || c == '\U{a0}' || c == '\U{1680}'
    || '\U{2000}' <= c <= '\U{200a}'
    || c == '\U{2028}' || c == '\U{2029}' || c == '\U{202f}' || c == '\U{205f}' || c == '\U{3000}'
  }

  predicate Blank(s: string)
  {
    forall i :: 0 <= i < |s| ==> IsSpace(s[i])
  }

  /** Drops the leading run of separators. */
  function SkipSpaces(s: string): (r: string)
    ensures |r| <= |s| && r == s[|s| - |r|..]
    ensures Blank(s[..|s| - |r|])
    ensures |r| > 0 ==> !IsSpace(r[0])
    decreases |s|
  {
    if |s| > 0 && IsSpace(s[0]) then SkipSpaces(s[1..]) else s
  }

  /** The longest prefix free of separators. */
  function TakeWord(s: string): (w: string)
    ensures w <= s
    ensures forall i :: 0 <= i < |w| ==> !IsSpace(w[i])
    ensures |w| < |s| ==> IsSpace(s[|w|])
    decreases |s|
  {
    if |s| > 0 && !IsSpace(s[0]) then [s[0]] + TakeWord(s[1..]) else []
  }

  /** The characters of `s` that are not separators, in order. */
  function NonSpace(s: string): string
  {
    if |s| == 0 then [] else (if IsSpace(s[0]) then [] else [s[0]]) + NonSpace(s[1..])
  }

  function Concat(ws: seq<string>): string
  {
    if |ws| == 0 then [] else ws[0] + Concat(ws[1..])
  }

  /** A non-empty run of non-separators. */
  predicate IsWord(w: string)
  {
    |w| > 0 && forall j :: 0 <= j < |w| ==> !IsSpace(w[j])
  }

  /** Python's `str.split()` with no argument: the maximal runs of
      non-separators, in order. */
  function Words(s: string): seq<string>
    decreases |s|
  {
    var t := SkipSpaces(s);
    if |t| == 0 then []
    else
      var w := TakeWord(t);
      [w] + Words(t[|w|..])
  }

  /** The split is empty exactly for a string of separators only. */
  lemma {:induction false} WordsEmptyIffBlank(s: string)
    ensures |Words(s)| == 0 <==> Blank(s)
  {
    var t := SkipSpaces(s);
    if |t| == 0 {
      assert s[..|s|] == s;
    } else {
      assert t[0] == s[|s| - |t|];
    }
  }

  /** Every piece of the split is a non-empty run of non-separators. */
  lemma {:induction false} WordsAreWords(s: string)
    ensures forall k :: 0 <= k < |Words(s)| ==> IsWord(Words(s)[k])
    decreases |s|
  {
    var t := SkipSpaces(s);
    if |t| > 0 {
      var w := TakeWord(t);
      assert IsWord(w);
      WordsAreWords(t[|w|..]);
    }
  }

  /** Separators in front of a piece that does not start with one are skipped. */
  lemma {:induction false} SkipSpacesOver(sp: string, t: string)
    requires Blank(sp)
    requires |t| == 0 || !IsSpace(t[0])
    ensures SkipSpaces(sp + t) == t
    decreases |sp|
  {
    if |sp| > 0 {
      assert (sp + t)[1..] == sp[1..] + t;
      SkipSpacesOver(sp[1..], t);
    } else {
      assert sp + t == t;
    }
  }

  /** A run of non-separators followed by a separator, or by nothing, is
      taken whole. */
  lemma {:induction false} TakeWordOver(w: string, rest: string)
    requires forall j :: 0 <= j < |w| ==> !IsSpace(w[j])
    requires |rest| == 0 || IsSpace(rest[0])
    ensures TakeWord(w + rest) == w
    decreases |w|
  {
    if |w| > 0 {
      assert (w + rest)[1..] == w[1..] + rest;
      TakeWordOver(w[1..], rest);
    } else {
      assert w + rest == rest;
    }
  }

  /** The pieces are the maximal runs: separators, then a run of
      non-separators ended by a separator or by the end of the line, make
      exactly that run the first piece, and the split goes on from the
      separator. So a run is never cut in two. */
  lemma {:induction false} WordsOfLayout(sp: string, w: string, rest: string)
    requires Blank(sp) && IsWord(w)
    requires |rest| == 0 || IsSpace(rest[0])
    ensures Words(sp + w + rest) == [w] + Words(rest)
  {
    assert sp + w + rest == sp + (w + rest);
    SkipSpacesOver(sp, w + rest);
    TakeWordOver(w, rest);
    assert (w + rest)[|w|..] == rest;
  }

  lemma {:induction false} NonSpaceAppend(a: string, b: string)
    ensures NonSpace(a + b) == NonSpace(a) + NonSpace(b)
    decreases |a|
  {
    if |a| > 0 {
      assert (a + b)[1..] == a[1..] + b;
      NonSpaceAppend(a[1..], b);
    } else {
      assert a + b == b;
    }
  }

  lemma {:induction false} NonSpaceOfBlank(s: string)
    requires Blank(s)
    ensures NonSpace(s) == []
    decreases |s|
  {
    if |s| > 0 {
      NonSpaceOfBlank(s[1..]);
    }
  }

  lemma {:induction false} NonSpaceOfWord(w: string)
    requires forall j :: 0 <= j < |w| ==> !IsSpace(w[j])
    ensures NonSpace(w) == w
    decreases |w|
  {
    if |w| > 0 {
      NonSpaceOfWord(w[1..]);
    }
  }

  lemma {:induction false} NonSpaceSkipsLeadingSpaces(s: string)
    ensures NonSpace(s) == NonSpace(SkipSpaces(s))
    decreases |s|
  {
    if |s| > 0 && IsSpace(s[0]) {
      NonSpaceSkipsLeadingSpaces(s[1..]);
    }
  }

  lemma NonSpaceOfWordThenRest(t: string)
    ensures NonSpace(t) == TakeWord(t) + NonSpace(t[|TakeWord(t)|..])
  {
    var w := TakeWord(t);
    var rest := t[|w|..];
    assert t == w + rest;
    NonSpaceAppend(w, rest);
    NonSpaceOfWord(w);
  }

  lemma ConcatCons(w: string, ws: seq<string>)
    ensures Concat([w] + ws) == w + Concat(ws)
  {
    assert ([w] + ws)[1..] == ws;
  }

  /** Splitting loses exactly the separators: gluing the words back together
      gives the command with every separator deleted. */
  lemma {:induction false} WordsKeepEveryNonSpace(s: string)
    ensures Concat(Words(s)) == NonSpace(s)
    decreases |s|
  {
    var t := SkipSpaces(s);
    NonSpaceSkipsLeadingSpaces(s);
    if |t| > 0 {
      var w := TakeWord(t);
      var rest := t[|w|..];
      NonSpaceOfWordThenRest(t);
      WordsKeepEveryNonSpace(rest);
      ConcatCons(w, Words(rest));
    }
  }

  /** `comm` in old/cli.py: a command line made only of separators is refused
      with `EmptyCommandError`; any other runs as its argument vector. */
  function Comm(cmd: string, run: ArgvRunner): (r: Result<Output, Error>)
    ensures r.Failure? <==> Blank(cmd)
    ensures r.Failure? ==> r.error == EmptyCommandError
    ensures r.Success? ==> exists argv :: argv == Words(cmd) && |argv| > 0 && r.value == run(argv)
  {
    WordsEmptyIffBlank(cmd);
    var argv := Words(cmd);
    if |argv| == 0 then Failure(EmptyCommandError) else Success(run(argv))
  }

  // ---------------------------------------------------------------------
  // cmd_concat
  // ---------------------------------------------------------------------

  const AndThen: string := " && "

  /** `cmd_concat`: Python's `" && ".join(cmds)`. */
  function CmdConcat(cmds: seq<string>): (r: string)
    ensures |cmds| == 0 ==> r == ""
    ensures |cmds| == 1 ==> r == cmds[0]
    ensures |cmds| > 0 ==> cmds[0] <= r
    decreases |cmds|
  {
    if |cmds| == 0 then ""
    else if |cmds| == 1 then cmds[0]
    else cmds[0] + AndThen + CmdConcat(cmds[1..])
  }

  function TotalLength(cmds: seq<string>): nat
  {
    if |cmds| == 0 then 0 else |cmds[0]| + TotalLength(cmds[1..])
  }

  /** The joined line holds every command plus one four-character
      separator between each neighbouring pair. */
  lemma {:induction false} CmdConcatLength(cmds: seq<string>)
    requires |cmds| > 0
    ensures |CmdConcat(cmds)| == TotalLength(cmds) + 4 * (|cmds| - 1)
    decreases |cmds|
  {
    if |cmds| > 1 {
      CmdConcatLength(cmds[1..]);
    }
  }

  /** Appending a command extends the line by a separator and that command. */
  lemma {:induction false} CmdConcatSnoc(cmds: seq<string>, c: string)
    requires |cmds| > 0
    ensures CmdConcat(cmds + [c]) == CmdConcat(cmds) + AndThen + c
    decreases |cmds|
  {
    assert (cmds + [c])[1..] == cmds[1..] + [c];
    if |cmds| > 1 {
      CmdConcatSnoc(cmds[1..], c);
    }
  }

  // ---------------------------------------------------------------------
  // crm_err_msg and crm_apt_warning
  // ---------------------------------------------------------------------

  /** The warning apt prints on stderr whenever it is used from a script: one
      line of text, with a newline before it and two after it. */
  const AptWarning: string :=
    "\n" + "WARNING: apt does not have a stable CLI interface. Use with caution in scripts." + "\n\n"

  /** The start of the first occurrence of `pat` in `s`: the span a search
      with the literal pattern reports. */
  function FirstMatch(pat: string, s: string): Option<nat>
    decreases |s|
  {
    if pat <= s then Some(0)
    else if |s| == 0 then None
    else
      match FirstMatch(pat, s[1..])
      case None => None
      case Some(i) => Some(i + 1)
  }

  /** A match is reported exactly when the pattern occurs; the reported
      span holds the pattern, and no earlier position starts one. */
  lemma {:induction false} FirstMatchSpec(pat: string, s: string)
    ensures FirstMatch(pat, s).None? <==> !Contains(pat, s)
    ensures FirstMatch(pat, s).Some? ==>
      var i := FirstMatch(pat, s).value;
      i + |pat| <= |s| && s[i..i + |pat|] == pat
      && forall j :: 0 <= j < i ==> !(pat <= s[j..])
    decreases |s|
  {
    if !(pat <= s) && |s| > 0 {
      FirstMatchSpec(pat, s[1..]);
      if FirstMatch(pat, s[1..]).Some? {
        var i := FirstMatch(pat, s[1..]).value;
        assert s[i + 1..i + 1 + |pat|] == s[1..][i..i + |pat|];
        forall j | 0 <= j < i + 1
          ensures !(pat <= s[j..])
        {
          if j > 0 {
            assert s[j..] == s[1..][j - 1..];
          }
        }
      }
    }
  }

  /** Python's `s.replace(pat, "")`: scanning left to right, every
      non-overlapping occurrence of `pat` is deleted. */
  function ReplaceAll(s: string, pat: string): (r: string)
    requires |pat| > 0
    decreases |s|
  {
    if |s| == 0 then s
    else if pat <= s then ReplaceAll(s[|pat|..], pat)
    else [s[0]] + ReplaceAll(s[1..], pat)
  }

  /** Deletion never lengthens the string, shortens it exactly when the
      pattern occurs, and leaves it unchanged otherwise. */
  lemma {:induction false} ReplaceAllShrinks(s: string, pat: string)
    requires |pat| > 0
    ensures |ReplaceAll(s, pat)| <= |s|
    ensures Contains(pat, s) <==> |ReplaceAll(s, pat)| < |s|
    ensures !Contains(pat, s) ==> ReplaceAll(s, pat) == s
    decreases |s|
  {
    if |s| > 0 {
      if pat <= s {
        ReplaceAllShrinks(s[|pat|..], pat);
      } else {
        ReplaceAllShrinks(s[1..], pat);
        assert s == [s[0]] + s[1..];
      }
    }
  }

  /** An occurring pattern is found, and the text at the match is the pattern. */
  lemma MatchedTextIsPattern(pat: string, s: string)
    requires Contains(pat, s)
    ensures FirstMatch(pat, s).Some?
    ensures FirstMatch(pat, s).value + |pat| <= |s|
    ensures s[FirstMatch(pat, s).value..FirstMatch(pat, s).value + |pat|] == pat
  {
    FirstMatchSpec(pat, s);
  }

  /** One round of `crm_err_msg` (old/cli.py:33-41): locate the first match,
      cut out the matched text, then delete every occurrence of that text.
      Since the match is literal, the matched text is the message itself. */
  function RemoveRound(msg: string, errs: string): (r: string)
    requires |msg| > 0 && Contains(msg, errs)
    ensures r == ReplaceAll(errs, msg)
    ensures |r| < |errs|
  {
    MatchedTextIsPattern(msg, errs);
    var start := FirstMatch(msg, errs).value;
    var matched := errs[start..start + |msg|];
    ReplaceAllShrinks(errs, msg);
    ReplaceAll(errs, matched)
  }

  /** `crm_err_msg`: rounds repeat while the message still occurs. The
      message must be non-empty: the empty message occurs everywhere, its
      match is empty, and the source recurses forever on it. */
  function RemoveExpected(msg: string, errs: string): (r: string)
    requires |msg| > 0
    ensures !Contains(msg, r)
    ensures !Contains(msg, errs) ==> r == errs
    ensures |r| <= |errs|
    decreases |errs|
  {
    if Contains(msg, errs) then RemoveExpected(msg, RemoveRound(msg, errs)) else errs
  }

  /** `crm_apt_warning`: the stripper applied to apt's warning. */
  function RemoveAptWarning(errs: string): (r: string)
    ensures !Contains(AptWarning, r)
    ensures !Contains(AptWarning, errs) ==> r == errs
    ensures |r| <= |errs|
  {
    RemoveExpected(AptWarning, errs)
  }

  /** The stripper as an explicit loop over rounds, bounded by the length of
      the stream instead of by recursion depth. */
  method RemoveExpectedLoop(msg: string, errs: string) returns (r: string)
    requires |msg| > 0
    ensures r == RemoveExpected(msg, errs)
    ensures !Contains(msg, r)
  {
    r := errs;
    while Contains(msg, r)
      invariant RemoveExpected(msg, r) == RemoveExpected(msg, errs)
      decreases |r|
    {
      r := RemoveRound(msg, r);
    }
  }

  /** Stripping its own output changes nothing. */
  lemma RemoveExpectedIdempotent(msg: string, errs: string)
    requires |msg| > 0
    ensures RemoveExpected(msg, RemoveExpected(msg, errs)) == RemoveExpected(msg, errs)
  {
  }

  /** One round only deletes: what is left is a subsequence of the input, and
      the deleted characters are whole copies of the pattern. */
  lemma {:induction false} ReplaceAllKeepsOrder(s: string, pat: string)
    requires |pat| > 0
    ensures IsSubsequence(ReplaceAll(s, pat), s)
    decreases |s|
  {
    if |s| > 0 {
      if pat <= s {
        ReplaceAllKeepsOrder(s[|pat|..], pat);
        SubsequenceOfSuffix(ReplaceAll(s, pat), s, |pat|);
      } else {
        ReplaceAllKeepsOrder(s[1..], pat);
        SubsequenceCons(s[0], ReplaceAll(s[1..], pat), s[1..]);
      }
    }
  }

  /** How many copies of `pat` `ReplaceAll` deletes from `s`. */
  function Copies(s: string, pat: string): nat
    requires |pat| > 0
    decreases |s|
  {
    if |s| == 0 then 0
    else if pat <= s then 1 + Copies(s[|pat|..], pat)
    else Copies(s[1..], pat)
  }

  /** Putting one more copy of `pat` in front of `rest` adds one copy to the deleted part. */
  lemma PrependCopy(pat: string, rest: string, r: string, k: nat)
    requires multiset(rest) == multiset(r) + multiset(Repeat(pat, k))
    ensures multiset(pat + rest) == multiset(r) + multiset(Repeat(pat, k + 1))
  {
    assert Repeat(pat, k + 1) == pat + Repeat(pat, k);
  }

  /** A character kept in front of `rest` is kept in front of `r`. */
  lemma PrependKept(c: char, rest: string, r: string, m: multiset<char>)
    requires multiset(rest) == multiset(r) + m
    ensures multiset([c] + rest) == multiset([c] + r) + m
  {
  }

  /** The characters `ReplaceAll` removes are exactly `Copies` copies of the pattern. */
  lemma {:induction false} ReplaceAllCount(s: string, pat: string)
    requires |pat| > 0
    ensures multiset(s) == multiset(ReplaceAll(s, pat)) + multiset(Repeat(pat, Copies(s, pat)))
    decreases |s|
  {
    if |s| == 0 {
    } else if pat <= s {
      var rest := s[|pat|..];
      assert ReplaceAll(s, pat) == ReplaceAll(rest, pat);
      assert Copies(s, pat) == Copies(rest, pat) + 1;
      ReplaceAllCount(rest, pat);
      PrependCopy(pat, rest, ReplaceAll(rest, pat), Copies(rest, pat));
      assert s == pat + rest;
    } else {
      var rest := s[1..];
      assert ReplaceAll(s, pat) == [s[0]] + ReplaceAll(rest, pat);
      assert Copies(s, pat) == Copies(rest, pat);
      ReplaceAllCount(rest, pat);
      PrependKept(s[0], rest, ReplaceAll(rest, pat), multiset(Repeat(pat, Copies(rest, pat))));
      assert s == [s[0]] + rest;
    }
  }

  /** The characters one round deletes are whole copies of the pattern. */
  lemma {:induction false} ReplaceAllDeletesCopies(s: string, pat: string)
    requires |pat| > 0
    ensures exists k: nat :: multiset(s) == multiset(ReplaceAll(s, pat)) + multiset(Repeat(pat, k))
  {
    ReplaceAllCount(s, pat);
  }

  /** The stripper only deletes, and only whole copies of the message:
      its output is a subsequence of the input whose missing characters
      make up some number of copies of the message. */
  lemma {:induction false} RemoveExpectedDeletesCopies(msg: string, errs: string)
    requires |msg| > 0
    ensures IsSubsequence(RemoveExpected(msg, errs), errs)
    ensures exists k: nat :: multiset(errs) == multiset(RemoveExpected(msg, errs)) + multiset(Repeat(msg, k))
    decreases |errs|
  {
    var r := RemoveExpected(msg, errs);
    if Contains(msg, errs) {
      var mid := RemoveRound(msg, errs);
      ReplaceAllKeepsOrder(errs, msg);
      ReplaceAllDeletesCopies(errs, msg);
      RemoveExpectedDeletesCopies(msg, mid);
      SubsequenceTransitive(r, mid, errs);
      var k1: nat :| multiset(errs) == multiset(mid) + multiset(Repeat(msg, k1));
      var k2: nat :| multiset(mid) == multiset(r) + multiset(Repeat(msg, k2));
      RepeatAdd(msg, k2, k1);
      assert multiset(errs) == multiset(r) + multiset(Repeat(msg, k2 + k1));
    } else {
      SubsequenceReflexive(errs);
      assert multiset(errs) == multiset(r) + multiset(Repeat(msg, 0));
    }
  }

  /** Copies of the message at the front are deleted in one round. */
  lemma {:induction false} ReplaceAllLeadingCopies(msg: string, n: nat, rest: string)
    requires |msg| > 0
    ensures ReplaceAll(Repeat(msg, n) + rest, msg) == ReplaceAll(rest, msg)
    decreases n
  {
    if n > 0 {
      var s := Repeat(msg, n) + rest;
      assert s == msg + (Repeat(msg, n - 1) + rest);
      assert s[|msg|..] == Repeat(msg, n - 1) + rest;
      ReplaceAllLeadingCopies(msg, n - 1, rest);
    } else {
      assert Repeat(msg, n) + rest == rest;
    }
  }

  /** Any number of leading copies of the message followed by content in
      which the message does not occur strip down to exactly that content. */
  lemma {:induction false} RemoveExpectedLeadingCopies(msg: string, n: nat, rest: string)
    requires |msg| > 0 && !Contains(msg, rest)
    ensures RemoveExpected(msg, Repeat(msg, n) + rest) == rest
  {
    var s := Repeat(msg, n) + rest;
    if n > 0 {
      assert s == msg + (Repeat(msg, n - 1) + rest);
      PrefixContained(msg, s);
      ReplaceAllLeadingCopies(msg, n, rest);
      ReplaceAllShrinks(rest, msg);
      assert RemoveRound(msg, s) == rest;
    } else {
      assert s == rest;
    }
  }

  /** A stream made only of back-to-back copies of the message strips to the
      empty stream (and never to a missing value). */
  lemma RemoveExpectedOnlyCopies(msg: string, n: nat)
    requires |msg| > 0
    ensures RemoveExpected(msg, Repeat(msg, n)) == []
  {
    assert Repeat(msg, n) + [] == Repeat(msg, n);
    RemoveExpectedLeadingCopies(msg, n, []);
  }

  /** apt's warning repeated three times is no error at all; the warning
      followed by a genuine apt error leaves exactly that error. */
  lemma AptWarningScenarios()
    ensures RemoveAptWarning(Repeat(AptWarning, 3)) == []
    ensures RemoveAptWarning(AptWarning + "E: Unable to locate package foo") == "E: Unable to locate package foo"
  {
    RemoveExpectedOnlyCopies(AptWarning, 3);
    var e := "E: Unable to locate package foo";
    ShorterNotContained(AptWarning, e);
    assert Repeat(AptWarning, 1) == AptWarning;
    RemoveExpectedLeadingCopies(AptWarning, 1, e);
  }

  /** Copies of the message do not in general strip away from the text they
      are mixed with: when the message starts and ends with the same
      character, its prefix without the last character is free of it, yet
      that prefix followed by one copy holds a copy at the start that spans
      both, and stripping deletes the wrong characters. */
  lemma {:induction false} BorderedMessageStraddles(msg: string)
    requires |msg| >= 2 && msg[0] == msg[|msg| - 1]
    ensures !Contains(msg, msg[..|msg| - 1])
    ensures RemoveExpected(msg, msg[..|msg| - 1] + msg) == msg[1..]
    ensures msg[1] != msg[0] ==> RemoveExpected(msg, msg[..|msg| - 1] + msg) != msg[..|msg| - 1]
  {
    var n := |msg|;
    var head := msg[..n - 1];
    var s := head + msg;
    ShorterNotContained(msg, head);
    assert s[..n] == msg;
    assert msg <= s;
    PrefixContained(msg, s);
    assert s[n..] == msg[1..];
    ShorterNotContained(msg, msg[1..]);
    ReplaceAllShrinks(msg[1..], msg);
    assert ReplaceAll(s, msg) == msg[1..];
    assert RemoveRound(msg, s) == msg[1..];
    assert msg[1..][0] == msg[1] && head[0] == msg[0];
  }

  /** apt's warning starts and ends with a newline, so the warning without its
      last newline, which is free of the warning, followed by one warning,
      strips to the warning without its first newline rather than to the
      warning-free part in front. */
  lemma AptWarningStraddles()
    ensures !Contains(AptWarning, AptWarning[..|AptWarning| - 1])
    ensures RemoveAptWarning(AptWarning[..|AptWarning| - 1] + AptWarning) == AptWarning[1..]
  {
    assert AptWarning[0] == '\n' && AptWarning[|AptWarning| - 1] == '\n';
    BorderedMessageStraddles(AptWarning);
  }

  /** The smallest case: "ab" is free of "aba", yet "ab" + "aba" strips to "ba". */
  lemma StraddleExample()
    ensures !Contains("aba", "ab")
    ensures RemoveExpected("aba", "ab" + "aba") == "ba"
  {
    BorderedMessageStraddles("aba");
    assert "aba"[..2] == "ab" && "aba"[1..] == "ba";
  }
}
