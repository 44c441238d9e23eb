/** Reading input lines and the client's input loop (handler.go; the input
    handler is repeated verbatim in whisper.go). */
module Handler {
  import opened Wrappers
  import opened Errors
  import opened Strings
  import Whisper

  /** The error that reports a user-requested exit (code 0). */
  const UserExit: Error := Error("The user has exited the program", 0)

  /** The error that reports that no further line could be read (code 1). */
  const ReadFailure: Error := Error("Could not read the next line from standard input.", 1)

  /** The exit table every input handler is built with. Only its keys are
      ever consulted; the stored values are never read. */
  const ExitTable: map<string, int> := map[Whisper.EXIT := 1, Whisper.QUIT := 2]

  /** The result of one ReadLine call, given the line the scanner delivers
      next (`None` once the scanner has stopped, at end of input or on a
      read error) and the handler's exit table. */
  function ReadOutcome(next: Option<string>, exit: map<string, int>): (string, Option<Error>)
  {
    match next
    case None => ("", Some(ReadFailure))
    case Some(raw) =>
      var output := TrimSpace(raw);
      if ToLower(output) in exit then ("", Some(UserExit)) else (output, None)
  }

  /** The line a scanner over `lines` delivers when `i` lines are consumed. */
  function LineAt(lines: seq<string>, i: nat): Option<string>
  {
    if i < |lines| then Some(lines[i]) else None
  }

  /** What ReadLine returns for each line of `lines`, in order. */
  function ReadOutcomes(lines: seq<string>, exit: map<string, int>): seq<(string, Option<Error>)>
  {
    if lines == [] then [] else [ReadOutcome(Some(lines[0]), exit)] + ReadOutcomes(lines[1..], exit)
  }

  /** The read outcome at position `i`, the end of input included. */
  function OutcomeAt(outs: seq<(string, Option<Error>)>, i: nat): (string, Option<Error>)
  {
    if i < |outs| then outs[i] else ("", Some(ReadFailure))
  }

  /** Position `i` of the precomputed outcomes is what ReadLine yields on
      the line it reads there, or at the end of input. */
  lemma {:induction false} OutcomeAtIsReadOutcome(lines: seq<string>, exit: map<string, int>, i: nat)
    ensures |ReadOutcomes(lines, exit)| == |lines|
    ensures OutcomeAt(ReadOutcomes(lines, exit), i) == ReadOutcome(LineAt(lines, i), exit)
    decreases |lines|
  {
    if lines != [] {
      OutcomeAtIsReadOutcome(lines[1..], exit, if i == 0 then 0 else i - 1);
    }
  }

  /** The line source: a scanner that delivers `lines` in order and then
      stops for good. Go's scanner also stops on a read error; the library
      cannot tell that apart from the end of input, so a failing source is
      the lines it delivered before failing. */
  class Scanner {
    const lines: seq<string>
    var pos: nat
    var text: string

    ghost predicate Valid()
      reads this
    {
      pos <= |lines|
    }

    constructor (lines: seq<string>)
      ensures Valid()
      ensures this.lines == lines && pos == 0 && text == ""
    {
      this.lines := lines;
      pos := 0;
      text := "";
    }

    /** Advances to the next line; `text` then holds it. Returns false, and
        clears `text`, once no line is left. */
    method Scan() returns (ok: bool)
      requires Valid()
      modifies this
      ensures Valid()
      ensures ok == (old(pos) < |lines|)
      ensures ok ==> pos == old(pos) + 1 && text == lines[old(pos)]
      ensures !ok ==> pos == old(pos) && text == ""
    {
      if pos < |lines| {
        text := lines[pos];
        pos := pos + 1;
        ok := true;
      } else {
        text := "";
        ok := false;
      }
    }
  }

  class InputHandler {
    const prompt: string
    const reader: Scanner
    const exit: map<string, int>

    ghost predicate Valid()
      reads this, reader
    {
      reader.Valid()
    }

    /** Go's `NewInputHandler`: the prompt, a scanner over the line source
        (standard input in Go, the parameter `input` here) and the exit
        table holding exactly the keys "exit" and "quit". */
    constructor (prompt: string, input: seq<string>)
      ensures Valid() && fresh(reader)
      ensures this.prompt == prompt && reader.lines == input && reader.pos == 0
      ensures exit.Keys == {"exit", "quit"}
      ensures exit["exit"] == 1 && exit["quit"] == 2
    {
      this.prompt := prompt;
      reader := new Scanner(input);
      exit := ExitTable;
    }

    /** Reads one line, trims it and classifies it: an exit word in any
        letter case ends with the code-0 error, a scanner that has stopped
        with the code-1 error, any other line comes back trimmed. Consumes
        exactly the line it reads. */
    method ReadLine() returns (line: string, err: Option<Error>)
      requires Valid()
      modifies reader
      ensures Valid()
      ensures (line, err) == ReadOutcome(LineAt(reader.lines, old(reader.pos)), exit)
      ensures reader.pos == if old(reader.pos) < |reader.lines| then old(reader.pos) + 1 else old(reader.pos)
    {
      var ok := reader.Scan();
      if ok {
        var output := reader.text;
        output := TrimSpace(output);
        if ToLower(output) in exit {
          return "", Some(UserExit);
        }
        return output, None;
      }
      return "", Some(ReadFailure);
    }
  }

  /** A channel of errors: what has been put on it, in order, and whether
      it has been closed. Go panics on a put to, or a close of, a closed
      channel, hence the preconditions. */
  class Channel {
    var items: seq<Error>
    var closed: bool

    constructor ()
      ensures items == [] && !closed
    {
      items := [];
      closed := false;
    }

    method Put(e: Error)
      requires !closed
      modifies this
      ensures items == old(items) + [e] && !closed
    {
      items := items + [e];
    }

    method Close()
      requires !closed
      modifies this
      ensures closed && items == old(items)
    {
      closed := true;
    }
  }

  /** The outcome of sending: `send(k, body)` is what the `k`-th send of the
      session, of `body`, returns (`None` for success). */
  type SendOracle = (nat, string) -> Option<Error>

  /** What an input loop does from a given point on: the bodies it sends,
      in order, the one error it reports, and how many lines it consumes. */
  datatype SessionResult = SessionResult(sent: seq<string>, err: Error, consumed: nat)

  /** The input loop from position `i` of the read outcomes `outs` on,
      with `k` sends made so far: take the next outcome; stop on a read
      error or an exit word; otherwise send the body and stop if the send
      fails; otherwise go on. */
  function Session(outs: seq<(string, Option<Error>)>, i: nat, send: SendOracle, k: nat): SessionResult
    decreases |outs| - i
  {
    var (body, err) := OutcomeAt(outs, i);
    if err.Some? then
      SessionResult([], err.value, if i < |outs| then 1 else 0)
    else
      match send(k, body)
      case Some(e) => SessionResult([body], e, 1)
      case None =>
        var r := Session(outs, i + 1, send, k + 1);
        SessionResult([body] + r.sent, r.err, 1 + r.consumed)
  }

  /** One step of the session when the outcome at `i` is an error. */
  lemma SessionStopsOnRead(outs: seq<(string, Option<Error>)>, i: nat, send: SendOracle, k: nat)
    requires OutcomeAt(outs, i).1.Some?
    ensures Session(outs, i, send, k)
      == SessionResult([], OutcomeAt(outs, i).1.value, if i < |outs| then 1 else 0)
  {
  }

  /** One step of the session when the line at `i` is read and its send
      fails. */
  lemma SessionStopsOnSend(outs: seq<(string, Option<Error>)>, i: nat, send: SendOracle, k: nat)
    requires OutcomeAt(outs, i).1.None? && send(k, OutcomeAt(outs, i).0).Some?
    ensures Session(outs, i, send, k)
      == SessionResult([OutcomeAt(outs, i).0], send(k, OutcomeAt(outs, i).0).value, 1)
  {
  }

  /** One step of the session when the line at `i` is read and sent. */
  lemma SessionContinues(outs: seq<(string, Option<Error>)>, i: nat, send: SendOracle, k: nat)
    requires OutcomeAt(outs, i).1.None? && send(k, OutcomeAt(outs, i).0).None?
    ensures i < |outs|
    ensures var r := Session(outs, i + 1, send, k + 1);
      Session(outs, i, send, k) == SessionResult([OutcomeAt(outs, i).0] + r.sent, r.err, 1 + r.consumed)
  {
  }

  /** The bodies `done` were read without error from positions `i`, `i + 1`,
      ... and each send of them, numbered from `k`, succeeded. */
  ghost predicate SentPrefix(outs: seq<(string, Option<Error>)>, i: nat, send: SendOracle, k: nat, done: seq<string>)
  {
    forall j :: 0 <= j < |done| ==> OutcomeAt(outs, i + j) == (done[j], None) && send(k + j, done[j]).None?
  }

  /** A body read and sent without error extends the sent prefix. */
  lemma SentPrefixExtend(outs: seq<(string, Option<Error>)>, i: nat, send: SendOracle, k: nat, done: seq<string>, body: string)
    requires SentPrefix(outs, i, send, k, done)
    requires OutcomeAt(outs, i + |done|) == (body, None) && send(k + |done|, body).None?
    ensures SentPrefix(outs, i, send, k, done + [body])
  {
  }

  /** A run of lines that were all read and sent successfully can be
      skipped: the session from `i` is that run followed by the session
      from the position after it. */
  lemma {:induction false} SessionSkipsSentPrefix(outs: seq<(string, Option<Error>)>, i: nat, send: SendOracle, k: nat, done: seq<string>)
    requires SentPrefix(outs, i, send, k, done)
    ensures var r := Session(outs, i + |done|, send, k + |done|);
      Session(outs, i, send, k) == SessionResult(done + r.sent, r.err, |done| + r.consumed)
    decreases |done|
  {
    var r := Session(outs, i + |done|, send, k + |done|);
    if done == [] {
      assert done + r.sent == r.sent;
    } else {
      assert OutcomeAt(outs, i + 0) == (done[0], None) && send(k + 0, done[0]).None?;
      SessionContinues(outs, i, send, k);
      var rest := done[1..];
      forall j | 0 <= j < |rest|
        ensures OutcomeAt(outs, i + 1 + j) == (rest[j], None) && send(k + 1 + j, rest[j]).None?
      {
        assert rest[j] == done[j + 1];
        assert i + 1 + j == i + (j + 1) && k + 1 + j == k + (j + 1);
      }
      SessionSkipsSentPrefix(outs, i + 1, send, k + 1, rest);
      assert i + 1 + |rest| == i + |done| && k + 1 + |rest| == k + |done|;
      assert Session(outs, i + 1, send, k + 1) == SessionResult(rest + r.sent, r.err, |rest| + r.consumed);
      assert [done[0]] + (rest + r.sent) == done + r.sent;
    }
  }

  /** After a sent prefix `done`, a read error ends the session. */
  lemma SessionEndsOnRead(outs: seq<(string, Option<Error>)>, i: nat, send: SendOracle, k: nat, done: seq<string>)
    requires SentPrefix(outs, i, send, k, done)
    requires OutcomeAt(outs, i + |done|).1.Some?
    ensures Session(outs, i, send, k)
      == SessionResult(done, OutcomeAt(outs, i + |done|).1.value, |done| + if i + |done| < |outs| then 1 else 0)
  {
    SessionSkipsSentPrefix(outs, i, send, k, done);
    SessionStopsOnRead(outs, i + |done|, send, k + |done|);
    assert done + [] == done;
  }

  /** After a sent prefix `done`, a failed send of the next body ends the session. */
  lemma SessionEndsOnSend(outs: seq<(string, Option<Error>)>, i: nat, send: SendOracle, k: nat, done: seq<string>, body: string)
    requires SentPrefix(outs, i, send, k, done)
    requires OutcomeAt(outs, i + |done|) == (body, None) && send(k + |done|, body).Some?
    ensures Session(outs, i, send, k)
      == SessionResult(done + [body], send(k + |done|, body).value, |done| + 1)
  {
    SessionSkipsSentPrefix(outs, i, send, k, done);
    SessionStopsOnSend(outs, i + |done|, send, k + |done|);
  }

  /** The input loop over the lines of `lines` from position `i` on. */
  function InputLoop(lines: seq<string>, i: nat, exit: map<string, int>, send: SendOracle, k: nat): SessionResult
  {
    Session(ReadOutcomes(lines, exit), i, send, k)
  }

  class Client {
    const Input: InputHandler
    const send: SendOracle
    /** The bodies handed to the peer so far, in order. */
    var sent: seq<string>

    ghost predicate Valid()
      reads this, Input, Input.reader
    {
      Input.Valid()
    }

    constructor (input: InputHandler, send: SendOracle)
      requires input.Valid()
      ensures Valid() && Input == input && this.send == send && sent == []
    {
      Input := input;
      this.send := send;
      sent := [];
    }

    /** Sends one body to the peer; the outcome comes from the oracle. */
    method Send(body: string) returns (err: Option<Error>)
      modifies this`sent
      ensures sent == old(sent) + [body]
      ensures err == send(|old(sent)|, body)
    {
      err := send(|sent|, body);
      sent := sent + [body];
    }

    /** Go's `Client.Handle`: read lines and send each body until the first
        error from either reading or sending; put that error on `echan`,
        close it and return. */
    method Handle(echan: Channel)
      requires Valid() && !echan.closed
      modifies Input.reader, this`sent, echan
      ensures Valid()
      ensures var r := InputLoop(Input.reader.lines, old(Input.reader.pos), Input.exit, send, old(|sent|));
        && sent == old(sent) + r.sent
        && echan.items == old(echan.items) + [r.err]
        && echan.closed
        && Input.reader.pos == old(Input.reader.pos) + r.consumed
    {
      var reader := Input.reader;
      ghost var outs := ReadOutcomes(reader.lines, Input.exit);
      ghost var pos0, sent0 := reader.pos, sent;
      ghost var done: seq<string> := [];
      while true
        invariant reader.Valid() && !echan.closed && echan.items == old(echan.items)
        invariant reader.pos == pos0 + |done| && sent == sent0 + done
        invariant SentPrefix(outs, pos0, send, |sent0|, done)
        decreases |reader.lines| - reader.pos
      {
        ghost var i, k := reader.pos, |sent|;
        OutcomeAtIsReadOutcome(reader.lines, Input.exit, i);
        var body, err := Input.ReadLine();
        if err.Some? {
          SessionEndsOnRead(outs, pos0, send, |sent0|, done);
          echan.Put(err.value);
          echan.Close();
          return;
        }
        err := Send(body);
        if err.Some? {
          SessionEndsOnSend(outs, pos0, send, |sent0|, done, body);
          assert sent == sent0 + (done + [body]);
          echan.Put(err.value);
          echan.Close();
          return;
        }
        SentPrefixExtend(outs, pos0, send, |sent0|, done, body);
        done := done + [body];
      }
    }
  }
}
