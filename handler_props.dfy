/** What ReadLine and the client's input loop guarantee, stated over the
    whole line source: how a session can end, which bodies reach Send, and
    how a raw line is classified. */
module HandlerProperties {
  import opened Wrappers
  import opened Errors
  import opened Strings
  import opened Handler
  import Whisper

  /** An exit table of the kind NewInputHandler builds: its keys are
      exactly the two exit words. */
  predicate StandardExit(exit: map<string, int>)
  {
    exit.Keys == {Whisper.EXIT, Whisper.QUIT}
  }

  /** The trimmed forms of `lines`, in order. */
  function TrimmedLines(lines: seq<string>): seq<string>
  {
    seq(|lines|, j requires 0 <= j < |lines| => TrimSpace(lines[j]))
  }

  // ---------------------------------------------------------------------
  // Classifying one line

  /** Every outcome of ReadLine has one of three shapes: a read failure
      when the scanner has stopped, a user exit, or a body with no error;
      whenever there is an error the returned line is empty. */
  lemma ReadOutcomeShapes(next: Option<string>, exit: map<string, int>)
    ensures var (line, err) := ReadOutcome(next, exit);
      && (err.Some? ==> line == "")
      && (err == Some(ReadFailure) <==> next.None?)
      && (err.Some? ==> err == Some(ReadFailure) || err == Some(UserExit))
      && ReadFailure.Code() == 1 && UserExit.Code() == 0
  {
  }

  /** A line that is not an exit word comes back without error, as the
      piece of the raw line left after cutting away its leading and
      trailing spaces, and with no space at either end. */
  lemma NonExitLineTrimmed(raw: string, exit: map<string, int>)
    requires ToLower(TrimSpace(raw)) !in exit
    ensures var (line, err) := ReadOutcome(Some(raw), exit);
      && err == None
      && Trimmed(line)
      && 0 <= Lead(raw) && Lead(raw) + |line| <= |raw|
      && line == raw[Lead(raw)..Lead(raw) + |line|]
      && AllSpace(raw[..Lead(raw)])
      && AllSpace(raw[Lead(raw) + |line|..])
  {
    TrimSpaceSpec(raw);
    var line := TrimSpace(raw);
    var lead := Lead(raw);
    forall k | 0 <= k < |raw[..lead]|
      ensures IsSpace(raw[..lead][k])
    {
      assert raw[..lead][k] == raw[k];
    }
    var tail := raw[lead + |line|..];
    forall k | 0 <= k < |tail|
      ensures IsSpace(tail[k])
    {
      assert tail[k] == raw[lead + |line| + k];
    }
  }

  /** A line of spaces only, the empty line included, is an empty body
      rather than an exit. */
  lemma BlankLineIsEmptyBody(raw: string, exit: map<string, int>)
    requires StandardExit(exit)
    requires AllSpace(raw)
    ensures ReadOutcome(Some(raw), exit) == ("", None)
  {
    TrimSpaceEmptyIff(raw);
    assert ToLower(TrimSpace(raw)) == "";
  }

  /** With the standard exit table a line is a user exit exactly when its
      trimmed form spells "exit" or "quit" in some mix of letter cases. */
  lemma ExitWordIff(raw: string, exit: map<string, int>)
    requires StandardExit(exit)
    ensures ReadOutcome(Some(raw), exit) == ("", Some(UserExit))
      <==> CaseVariant(TrimSpace(raw), Whisper.EXIT) || CaseVariant(TrimSpace(raw), Whisper.QUIT)
  {
    var t := TrimSpace(raw);
    LowerMatchesIff(t, Whisper.EXIT);
    LowerMatchesIff(t, Whisper.QUIT);
    assert ToLower(t) in exit <==> ToLower(t) == Whisper.EXIT || ToLower(t) == Whisper.QUIT;
  }

  /** An exit word in any letter case, with any spaces around it, ends
      reading with the user-exit error. */
  lemma PaddedExitWord(pre: string, word: string, post: string, exit: map<string, int>)
    requires StandardExit(exit)
    requires AllSpace(pre) && AllSpace(post)
    requires CaseVariant(word, Whisper.EXIT) || CaseVariant(word, Whisper.QUIT)
    ensures ReadOutcome(Some(pre + word + post), exit) == ("", Some(UserExit))
  {
    assert Trimmed(word) by {
      assert word[0] in {'e', 'E', 'q', 'Q'};
      assert word[3] in {'t', 'T'};
    }
    TrimSurrounded(pre, word, post);
    ExitWordIff(pre + word + post, exit);
  }

  /** "  Quit " is read as a user exit, whose code is 0. */
  lemma QuitWithSpacesExits()
    ensures ReadOutcome(Some("  Quit "), ExitTable) == ("", Some(UserExit))
    ensures UserExit.Code() == 0
  {
    assert ExitTable.Keys == {Whisper.EXIT, Whisper.QUIT};
    assert CaseVariant("Quit", Whisper.QUIT) by {
      assert UpperChar('q') == 'Q';
    }
    assert AllSpace("  ") && AllSpace(" ");
    PaddedExitWord("  ", "Quit", " ", ExitTable);
    assert "  " + "Quit" + " " == "  Quit ";
  }

  /** Only the keys of the exit table matter: tables with the same keys,
      whatever values they store, classify every line alike. */
  lemma ExitValuesUnread(next: Option<string>, exit1: map<string, int>, exit2: map<string, int>)
    requires exit1.Keys == exit2.Keys
    ensures ReadOutcome(next, exit1) == ReadOutcome(next, exit2)
  {
    if next.Some? {
      var w := ToLower(TrimSpace(next.value));
      assert w in exit1 <==> w in exit1.Keys;
    }
  }

  // ---------------------------------------------------------------------
  // How a session ends

  /** The session `r` from position `i` sent each of its bodies without
      error and then met an error while reading; it consumed every line it
      read, the failing one included when there was one. */
  ghost predicate EndedOnRead(outs: seq<(string, Option<Error>)>, i: nat, send: SendOracle, k: nat, r: SessionResult)
  {
    && SentPrefix(outs, i, send, k, r.sent)
    && OutcomeAt(outs, i + |r.sent|).1 == Some(r.err)
    && r.consumed == |r.sent| + (if i + |r.sent| < |outs| then 1 else 0)
  }

  /** The session `r` from position `i` sent all but its last body without
      error, and the send of its last body failed with `r.err`. */
  ghost predicate EndedOnSend(outs: seq<(string, Option<Error>)>, i: nat, send: SendOracle, k: nat, r: SessionResult)
  {
    var n := |r.sent|;
    && n > 0
    && SentPrefix(outs, i, send, k, r.sent[..n - 1])
    && OutcomeAt(outs, i + n - 1) == (r.sent[n - 1], None)
    && send(k + n - 1, r.sent[n - 1]) == Some(r.err)
    && r.consumed == n
  }

  /** A body read and sent without error in front of a sent prefix. */
  lemma SentPrefixCons(outs: seq<(string, Option<Error>)>, i: nat, send: SendOracle, k: nat, body: string, done: seq<string>)
    requires OutcomeAt(outs, i) == (body, None) && send(k, body).None?
    requires SentPrefix(outs, i + 1, send, k + 1, done)
    ensures SentPrefix(outs, i, send, k, [body] + done)
  {
    var d := [body] + done;
    forall j | 0 <= j < |d|
      ensures OutcomeAt(outs, i + j) == (d[j], None) && send(k + j, d[j]).None?
    {
      if j > 0 {
        assert d[j] == done[j - 1];
        assert i + j == i + 1 + (j - 1) && k + j == k + 1 + (j - 1);
      }
    }
  }

  /** Every session ends in exactly one of the two ways: on a read error
      after all its sends succeeded, or on its first failed send. */
  lemma {:induction false} SessionEnds(outs: seq<(string, Option<Error>)>, i: nat, send: SendOracle, k: nat)
    ensures var r := Session(outs, i, send, k);
      EndedOnRead(outs, i, send, k, r) || EndedOnSend(outs, i, send, k, r)
    decreases |outs| - i
  {
    var (body, err) := OutcomeAt(outs, i);
    var r := Session(outs, i, send, k);
    if err.Some? {
      SessionStopsOnRead(outs, i, send, k);
      assert EndedOnRead(outs, i, send, k, r);
    } else if send(k, body).Some? {
      SessionStopsOnSend(outs, i, send, k);
      assert r.sent[..0] == [];
      assert EndedOnSend(outs, i, send, k, r);
    } else {
      SessionContinues(outs, i, send, k);
      var r' := Session(outs, i + 1, send, k + 1);
      SessionEnds(outs, i + 1, send, k + 1);
      if EndedOnRead(outs, i + 1, send, k + 1, r') {
        EndedOnReadCons(outs, i, send, k, body, r');
      } else {
        EndedOnSendCons(outs, i, send, k, body, r');
      }
    }
  }

  /** A session that ends on a read error stays so when a body read and
      sent without error is put in front of it. */
  lemma EndedOnReadCons(outs: seq<(string, Option<Error>)>, i: nat, send: SendOracle, k: nat, body: string, r: SessionResult)
    requires OutcomeAt(outs, i) == (body, None) && send(k, body).None?
    requires EndedOnRead(outs, i + 1, send, k + 1, r)
    ensures EndedOnRead(outs, i, send, k, SessionResult([body] + r.sent, r.err, 1 + r.consumed))
  {
    SentPrefixCons(outs, i, send, k, body, r.sent);
    assert i + |[body] + r.sent| == i + 1 + |r.sent|;
  }

  /** A session that ends on a failed send stays so when a body read and
      sent without error is put in front of it. */
  lemma EndedOnSendCons(outs: seq<(string, Option<Error>)>, i: nat, send: SendOracle, k: nat, body: string, r: SessionResult)
    requires OutcomeAt(outs, i) == (body, None) && send(k, body).None?
    requires EndedOnSend(outs, i + 1, send, k + 1, r)
    ensures EndedOnSend(outs, i, send, k, SessionResult([body] + r.sent, r.err, 1 + r.consumed))
  {
    var n := |r.sent|;
    var s := [body] + r.sent;
    assert s[..n] == [body] + r.sent[..n - 1];
    SentPrefixCons(outs, i, send, k, body, r.sent[..n - 1]);
    assert s[n] == r.sent[n - 1];
    assert i + (n + 1) - 1 == i + 1 + n - 1 && k + (n + 1) - 1 == k + 1 + n - 1;
  }

  /** The two ways of ending describe the session completely: a result is
      the session's exactly when it ends in one of them. */
  lemma SessionCharacterized(outs: seq<(string, Option<Error>)>, i: nat, send: SendOracle, k: nat, r: SessionResult)
    ensures Session(outs, i, send, k) == r
      <==> EndedOnRead(outs, i, send, k, r) || EndedOnSend(outs, i, send, k, r)
  {
    if Session(outs, i, send, k) == r {
      SessionEnds(outs, i, send, k);
    }
    if EndedOnRead(outs, i, send, k, r) {
      EndedOnReadIsSession(outs, i, send, k, r);
    }
    if EndedOnSend(outs, i, send, k, r) {
      EndedOnSendIsSession(outs, i, send, k, r);
    }
  }

  /** A result that ends on a read error is the session's. */
  lemma EndedOnReadIsSession(outs: seq<(string, Option<Error>)>, i: nat, send: SendOracle, k: nat, r: SessionResult)
    requires EndedOnRead(outs, i, send, k, r)
    ensures Session(outs, i, send, k) == r
  {
    SessionEndsOnRead(outs, i, send, k, r.sent);
  }

  /** A result that ends on a failed send is the session's. */
  lemma EndedOnSendIsSession(outs: seq<(string, Option<Error>)>, i: nat, send: SendOracle, k: nat, r: SessionResult)
    requires EndedOnSend(outs, i, send, k, r)
    ensures Session(outs, i, send, k) == r
  {
    var n := |r.sent|;
    SessionEndsOnSend(outs, i, send, k, r.sent[..n - 1], r.sent[n - 1]);
    assert r.sent[..n - 1] + [r.sent[n - 1]] == r.sent;
  }

  /** Every body the session sends was read without error, in order, and
      each read line is consumed at most once. */
  lemma SentWereRead(outs: seq<(string, Option<Error>)>, i: nat, send: SendOracle, k: nat)
    ensures var r := Session(outs, i, send, k);
      && |r.sent| <= r.consumed
      && (forall j :: 0 <= j < |r.sent| ==> OutcomeAt(outs, i + j) == (r.sent[j], None))
  {
    var r := Session(outs, i, send, k);
    SessionEnds(outs, i, send, k);
    if EndedOnSend(outs, i, send, k, r) {
      var n := |r.sent|;
      forall j | 0 <= j < n - 1
        ensures OutcomeAt(outs, i + j) == (r.sent[j], None)
      {
        assert r.sent[..n - 1][j] == r.sent[j];
      }
    }
  }

  // ---------------------------------------------------------------------
  // The input loop over raw lines

  /** The outcome at `i + j` of the read outcomes of `lines`, when it is a
      body, is the trimmed line `i + j`, which is not an exit word. */
  lemma BodyIsTrimmedLine(lines: seq<string>, exit: map<string, int>, i: nat, j: nat, body: string)
    requires OutcomeAt(ReadOutcomes(lines, exit), i + j) == (body, None)
    ensures i + j < |lines| && body == TrimSpace(lines[i + j]) && ToLower(body) !in exit
  {
    OutcomeAtIsReadOutcome(lines, exit, i + j);
  }

  /** The loop hands Send the trimmed forms of the lines it reads, in the
      order read, one Send per line; an exit word never reaches Send; and
      it consumes no more lines than are left. */
  lemma InputLoopSendsTrimmedLines(lines: seq<string>, i: nat, exit: map<string, int>, send: SendOracle, k: nat)
    requires i <= |lines|
    ensures var r := InputLoop(lines, i, exit, send, k);
      && |r.sent| <= r.consumed <= |lines| - i
      && forall j :: 0 <= j < |r.sent| ==>
           i + j < |lines| && r.sent[j] == TrimSpace(lines[i + j]) && ToLower(r.sent[j]) !in exit
  {
    var outs := ReadOutcomes(lines, exit);
    var r := Session(outs, i, send, k);
    OutcomeAtIsReadOutcome(lines, exit, i);
    SentWereRead(outs, i, send, k);
    forall j | 0 <= j < |r.sent|
      ensures i + j < |lines| && r.sent[j] == TrimSpace(lines[i + j]) && ToLower(r.sent[j]) !in exit
    {
      BodyIsTrimmedLine(lines, exit, i, j, r.sent[j]);
    }
    if r.sent != [] {
      BodyIsTrimmedLine(lines, exit, i, |r.sent| - 1, r.sent[|r.sent| - 1]);
    }
    SessionEnds(outs, i, send, k);
  }

  /** Lines `i` to `n` (exclusive) that are not exit words and whose sends,
      numbered from `k`, succeed form a sent prefix of the loop. */
  lemma ReadAndSentPrefix(lines: seq<string>, i: nat, n: nat, exit: map<string, int>, send: SendOracle, k: nat)
    requires i <= n <= |lines|
    requires forall j :: i <= j < n ==> ToLower(TrimSpace(lines[j])) !in exit
    requires forall j :: i <= j < n ==> send(k + (j - i), TrimSpace(lines[j])).None?
    ensures SentPrefix(ReadOutcomes(lines, exit), i, send, k, TrimmedLines(lines[i..n]))
  {
    var outs := ReadOutcomes(lines, exit);
    var done := TrimmedLines(lines[i..n]);
    forall j | 0 <= j < |done|
      ensures OutcomeAt(outs, i + j) == (done[j], None) && send(k + j, done[j]).None?
    {
      OutcomeAtIsReadOutcome(lines, exit, i + j);
      assert lines[i..n][j] == lines[i + j];
      assert k + ((i + j) - i) == k + j;
    }
  }

  /** An exit word at line `n`, after lines that were all sent, ends the
      loop with the user-exit error once those lines are sent; the exit
      line itself is consumed but not sent. */
  lemma InputLoopStopsAtExitWord(lines: seq<string>, i: nat, n: nat, exit: map<string, int>, send: SendOracle, k: nat)
    requires i <= n < |lines|
    requires ToLower(TrimSpace(lines[n])) in exit
    requires forall j :: i <= j < n ==> ToLower(TrimSpace(lines[j])) !in exit
    requires forall j :: i <= j < n ==> send(k + (j - i), TrimSpace(lines[j])).None?
    ensures InputLoop(lines, i, exit, send, k) == SessionResult(TrimmedLines(lines[i..n]), UserExit, n - i + 1)
  {
    var outs := ReadOutcomes(lines, exit);
    var done := TrimmedLines(lines[i..n]);
    ReadAndSentPrefix(lines, i, n, exit, send, k);
    OutcomeAtIsReadOutcome(lines, exit, n);
    assert i + |done| == n;
    SessionEndsOnRead(outs, i, send, k, done);
  }

  /** The first failed send, of line `n`, ends the loop with that send's
      error; line `n` is counted among the sent bodies. */
  lemma InputLoopStopsAtFailedSend(lines: seq<string>, i: nat, n: nat, exit: map<string, int>, send: SendOracle, k: nat)
    requires i <= n < |lines|
    requires forall j :: i <= j <= n ==> ToLower(TrimSpace(lines[j])) !in exit
    requires forall j :: i <= j < n ==> send(k + (j - i), TrimSpace(lines[j])).None?
    requires send(k + (n - i), TrimSpace(lines[n])).Some?
    ensures InputLoop(lines, i, exit, send, k)
      == SessionResult(TrimmedLines(lines[i..n + 1]), send(k + (n - i), TrimSpace(lines[n])).value, n - i + 1)
  {
    var outs := ReadOutcomes(lines, exit);
    var done := TrimmedLines(lines[i..n]);
    ReadAndSentPrefix(lines, i, n, exit, send, k);
    OutcomeAtIsReadOutcome(lines, exit, n);
    assert i + |done| == n && k + |done| == k + (n - i);
    SessionEndsOnSend(outs, i, send, k, done, TrimSpace(lines[n]));
    assert done + [TrimSpace(lines[n])] == TrimmedLines(lines[i..n + 1]);
  }

  /** With no exit word and no failed send, the loop sends every remaining
      line and ends at the end of input with the read-failure error. */
  lemma InputLoopReadsToEnd(lines: seq<string>, i: nat, exit: map<string, int>, send: SendOracle, k: nat)
    requires i <= |lines|
    requires forall j :: i <= j < |lines| ==> ToLower(TrimSpace(lines[j])) !in exit
    requires forall j :: i <= j < |lines| ==> send(k + (j - i), TrimSpace(lines[j])).None?
    ensures InputLoop(lines, i, exit, send, k) == SessionResult(TrimmedLines(lines[i..]), ReadFailure, |lines| - i)
  {
    var outs := ReadOutcomes(lines, exit);
    var done := TrimmedLines(lines[i..|lines|]);
    ReadAndSentPrefix(lines, i, |lines|, exit, send, k);
    OutcomeAtIsReadOutcome(lines, exit, |lines|);
    assert i + |done| == |lines|;
    SessionEndsOnRead(outs, i, send, k, done);
    assert lines[i..|lines|] == lines[i..];
  }
}
