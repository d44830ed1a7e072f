/** The Codex adapter's collector (crates/xuanling-harness-bridge/src/adapters/codex.rs): a fold
    over the framed lines of stdout, closed by a case analysis. JSON decoding is a parameter. */
module Codex {
  import opened Redaction
  import opened Whitespace
  import opened Wrappers
  import opened Collector

  datatype Event =
    | Invalid
    | TurnCompleted
    | TurnFailed(message: Option<Text>)
    | StreamError(message: Option<Text>)
    | ItemCompleted(agentMessage: bool, text: Option<Text>)
    | Other

  type Decoder = Text -> Event

  datatype Limits = Limits(maxDiagnostic: nat, maxLine: nat)

  datatype Outcome =
    | Completed
    | NativeFailure(message: Text)
    | ExitFailure(exit: int, diagnostic: Option<Text>)
    | MissingTurnCompleted
    | MissingFinalMessage

  datatype Collected = Collected(
    outcome: Outcome,
    finalText: Option<Text>,
    outputComplete: bool,
    diagnostic: Option<Text>,
    protocolIncomplete: bool,
    redacted: bool)

  function FailureOf(e: Event): Option<Text>
  {
    match e
    case TurnFailed(m) => Some(if m.Some? then m.value else "codex turn failed")
    case StreamError(m) => Some(if m.Some? then m.value else "codex reported an error")
    case _ => None
  }

  function MessageOf(e: Event): Option<Text>
  {
    if e.ItemCompleted? && e.agentMessage then e.text else None
  }

  // ---- what a list of lines means ----------------------------------------------------

  ghost predicate Seen(lines: seq<Text>, decode: Decoder, e: Event)
  {
    exists k :: 0 <= k < |lines| && decode(lines[k]) == e
  }

  ghost predicate Fails(lines: seq<Text>, decode: Decoder)
  {
    exists k :: 0 <= k < |lines| && FailureOf(decode(lines[k])).Some?
  }

  /** The value the last line with one carries. */
  ghost function LastOf(lines: seq<Text>, decode: Decoder, pick: Event -> Option<Text>): Option<Text>
  {
    if lines == [] then None
    else
      var own := pick(decode(lines[|lines| - 1]));
      if own.Some? then own else LastOf(lines[..|lines| - 1], decode, pick)
  }

  lemma {:induction false} LastOfIsLast(lines: seq<Text>, decode: Decoder, pick: Event -> Option<Text>)
    ensures var last := LastOf(lines, decode, pick);
            if last.None? then forall k | 0 <= k < |lines| :: pick(decode(lines[k])).None?
            else exists k :: 0 <= k < |lines| && pick(decode(lines[k])) == last &&
                             forall j | k < j < |lines| :: pick(decode(lines[j])).None?
  {
    if lines != [] && pick(decode(lines[|lines| - 1])).None? {
      var n := |lines| - 1;
      LastOfIsLast(lines[..n], decode, pick);
      var last := LastOf(lines[..n], decode, pick);
      if last.Some? {
        var k :| 0 <= k < n && pick(decode(lines[..n][k])) == last &&
                 forall j | k < j < n :: pick(decode(lines[..n][j])).None?;
        assert pick(decode(lines[k])) == last;
        forall j | k < j < |lines| ensures pick(decode(lines[j])).None? {
          assert j < n ==> lines[..n][j] == lines[j];
        }
      }
    }
  }

  /** The result as a function of the whole stdout and stderr streams and the exit code. */
  ghost function ResultOf(stdout: Text, stderr: Text, exitCode: Option<int>, decode: Decoder,
                        limits: Limits, redactor: Redactor): Collected
  {
    var lines := AllLines(stdout, limits.maxLine);
    var incomplete := TooLong(Split(stdout), limits.maxLine) || Seen(lines, decode, Invalid);
    var shown := TailText(stderr, limits.maxDiagnostic, redactor);
    var diagnostic := if shown == [] then None else Some(shown);
    var redacted := exists i :: i in TailMarks(stderr, limits.maxDiagnostic, redactor);
    var failure := LastOf(lines, decode, FailureOf);
    var message := LastOf(lines, decode, MessageOf);
    var exit := if exitCode.Some? then exitCode.value else -1;
    if failure.Some? then
      var text := failure.value + if diagnostic.Some? then " | " + diagnostic.value else [];
      var marks := redactor.Marked(text, 0);
      Collected(NativeFailure(Truncate(Render(text, marks, |text|), limits.maxDiagnostic)), message, false, diagnostic,
                incomplete, redacted || exists i :: i in marks)
    else if exit != 0 then
      Collected(ExitFailure(exit, diagnostic), message, false, diagnostic, incomplete, redacted)
    else if !Seen(lines, decode, TurnCompleted) then
      Collected(MissingTurnCompleted, None, false, diagnostic, false, redacted)
    else if message.None? || Blank(message.value) then
      Collected(MissingFinalMessage, None, false, diagnostic, false, redacted)
    else
      Collected(Completed, message, !incomplete, diagnostic, incomplete, redacted)
  }

  /** A run is reported completed exactly when no failure event occurred on any line, the
      worker exited with 0, turn.completed was seen and the last agent message is not blank;
      its output is complete exactly when, besides, no line was dropped or undecodable. */
  lemma CompletedExactlyWhen(stdout: Text, stderr: Text, exitCode: Option<int>, decode: Decoder,
                             limits: Limits, redactor: Redactor)
    ensures var lines := AllLines(stdout, limits.maxLine);
            var message := LastOf(lines, decode, MessageOf);
            var r := ResultOf(stdout, stderr, exitCode, decode, limits, redactor);
            (r.outcome.Completed? <==>
               !Fails(lines, decode) && exitCode == Some(0) && Seen(lines, decode, TurnCompleted) &&
               message.Some? && !Blank(message.value)) &&
            (r.outcome.NativeFailure? <==> Fails(lines, decode)) &&
            (r.outputComplete <==>
               r.outcome.Completed? && !Seen(lines, decode, Invalid) && !TooLong(Split(stdout), limits.maxLine))
  {
    hide Render, Redactor.Marked, TailMarks, TailText, AllLines, Split, Seen, Fails, LastOf, Truncate;
    hide TooLong, Blank, MessageOf;
    FailsWhenLast(AllLines(stdout, limits.maxLine), decode);
  }

  lemma FailsWhenLast(lines: seq<Text>, decode: Decoder)
    ensures LastOf(lines, decode, FailureOf).Some? <==> Fails(lines, decode)
  {
    hide LastOf;
    LastOfIsLast(lines, decode, FailureOf);
    var last := LastOf(lines, decode, FailureOf);
    if last.Some? {
      var k :| 0 <= k < |lines| && FailureOf(decode(lines[k])) == last;
      assert FailureOf(decode(lines[k])).Some?;
    }
  }

  function Truncate(text: Text, limit: nat): Text
  {
    if |text| <= limit then text else text[..limit]
  }

  class CodexCollector {
    const limits: Limits
    const decode: Decoder
    var framer: LineFramer
    var turnCompleted: bool
    var failure: Option<Text>
    var finalText: Option<Text>
    var invalidEvents: nat
    var stderr: TailBuffer

    /** The fields are the fold of the given lines. */
    ghost predicate Folds(lines: seq<Text>)
      reads this
    {
      (turnCompleted <==> Seen(lines, decode, TurnCompleted)) &&
      failure == LastOf(lines, decode, FailureOf) &&
      finalText == LastOf(lines, decode, MessageOf) &&
      (invalidEvents > 0 <==> Seen(lines, decode, Invalid))
    }

    ghost predicate Valid()
      reads this, framer, stderr
    {
      framer.Valid() && framer.limit == limits.maxLine &&
      stderr.Valid() && stderr.limit == limits.maxDiagnostic &&
      Folds(CompleteLines(framer.stream, limits.maxLine))
    }

    constructor (limits: Limits, decode: Decoder)
      ensures Valid() && fresh(framer) && fresh(stderr) && framer.stream == [] && stderr.stream == []
      ensures this.limits == limits && this.decode == decode
    {
      this.limits, this.decode := limits, decode;
      var f := new LineFramer(limits.maxLine);
      var s := new TailBuffer(limits.maxDiagnostic);
      framer, stderr := f, s;
      turnCompleted, failure, finalText, invalidEvents := false, None, None, 0;
      new;
      assert CompleteLines([], limits.maxLine) == [];
    }

    method OnStdout(chunk: Text)
      requires Valid()
      modifies this, framer
      ensures Valid() && framer == old(framer) && stderr == old(stderr)
      ensures framer.stream == old(framer.stream) + chunk
    {
      ghost var before := CompleteLines(framer.stream, limits.maxLine);
      var lines := framer.Push(chunk);
      HandleEvents(before, lines);
    }

    method OnStderr(chunk: Text)
      requires Valid()
      modifies stderr
      ensures Valid() && stderr.stream == old(stderr.stream) + chunk
    {
      stderr.Push(chunk);
    }

    /** Fold further lines, in order. */
    method HandleEvents(ghost before: seq<Text>, lines: seq<Text>)
      requires Folds(before)
      modifies this`turnCompleted, this`failure, this`finalText, this`invalidEvents
      ensures Folds(before + lines)
    {
      hide Folds, LastOf, Seen;
      assert before + lines[..0] == before;
      for n := 0 to |lines|
        invariant Folds(before + lines[..n])
      {
        HandleEvent(before + lines[..n], lines[n]);
        assert before + lines[..n] + [lines[n]] == before + lines[..n + 1];
      }
      assert lines[..|lines|] == lines;
    }

    method HandleEvent(ghost before: seq<Text>, line: Text)
      requires Folds(before)
      modifies this`turnCompleted, this`failure, this`finalText, this`invalidEvents
      ensures Folds(before + [line])
    {
      hide LastOf, Seen;
      LastAppend(before, line, decode, FailureOf);
      LastAppend(before, line, decode, MessageOf);
      SeenAppend(before, line, decode, TurnCompleted);
      SeenAppend(before, line, decode, Invalid);
      match decode(line)
      case Invalid => invalidEvents := invalidEvents + 1;
      case TurnCompleted => turnCompleted := true;
      case TurnFailed(m) => failure := Some(if m.Some? then m.value else "codex turn failed");
      case StreamError(m) => failure := Some(if m.Some? then m.value else "codex reported an error");
      case ItemCompleted(agentMessage, text) =>
        if agentMessage && text.Some? {
          finalText := text;
        }
      case Other =>
    }

    /** Whatever the chunking of both streams was, the result is the one of the whole streams. */
    method FinishRedacted(exitCode: Option<int>, redactor: Redactor) returns (r: Collected)
      requires Valid() && redactor.Valid()
      modifies this, framer
      ensures r == ResultOf(old(framer.stream), old(stderr.stream), exitCode, decode, limits, redactor)
    {
      hide Split, CompleteLines, AllLines, TooLong, Render, Redactor.Marked, TailMarks, TailText, LastOf, Seen,
           Redactor.Valid;
      ghost var before := CompleteLines(framer.stream, limits.maxLine);
      var last := framer.Finish();
      HandleEvents(before, last);
      var protocolIncomplete := framer.overflow || invalidEvents > 0;
      var diagnostic, redacted := stderr.RedactedText(redactor);
      var exit := if exitCode.Some? then exitCode.value else -1;
      if failure.Some? {
        var text := failure.value + if diagnostic.Some? then " | " + diagnostic.value else [];
        var message, changed := redactor.RedactWithPrefix(text, 0);
        return Collected(NativeFailure(Truncate(message, limits.maxDiagnostic)), finalText, false, diagnostic,
                         protocolIncomplete, redacted || changed);
      }
      if exit != 0 {
        return Collected(ExitFailure(exit, diagnostic), finalText, false, diagnostic, protocolIncomplete, redacted);
      }
      if !turnCompleted {
        return Collected(MissingTurnCompleted, None, false, diagnostic, false, redacted);
      }
      if finalText.Some? && !Blank(finalText.value) {
        return Collected(Completed, finalText, !protocolIncomplete, diagnostic, protocolIncomplete, redacted);
      }
      return Collected(MissingFinalMessage, None, false, diagnostic, false, redacted);
    }
  }

  /** A chunk read from one of the worker's two pipes. */
  datatype Chunk = Stdout(text: Text) | Stderr(text: Text)

  ghost function StdoutOf(chunks: seq<Chunk>): Text
  {
    if chunks == [] then []
    else
      var c := chunks[|chunks| - 1];
      StdoutOf(chunks[..|chunks| - 1]) + if c.Stdout? then c.text else []
  }

  ghost function StderrOf(chunks: seq<Chunk>): Text
  {
    if chunks == [] then []
    else
      var c := chunks[|chunks| - 1];
      StderrOf(chunks[..|chunks| - 1]) + if c.Stderr? then c.text else []
  }

  /** The collected result depends only on the two concatenated streams, not on how they were
      cut into chunks or interleaved. */
  method Collect(chunks: seq<Chunk>, exitCode: Option<int>, decode: Decoder, limits: Limits, redactor: Redactor)
    returns (r: Collected)
    requires redactor.Valid()
    ensures r == ResultOf(StdoutOf(chunks), StderrOf(chunks), exitCode, decode, limits, redactor)
  {
    hide ResultOf, CodexCollector.Valid, Redactor.Valid;
    var collector := new CodexCollector(limits, decode);
    for n := 0 to |chunks|
      invariant collector.Valid() && fresh(collector) && fresh(collector.framer) && fresh(collector.stderr)
      invariant collector.framer.stream == StdoutOf(chunks[..n]) && collector.stderr.stream == StderrOf(chunks[..n])
      invariant collector.decode == decode && collector.limits == limits
    {
      assert chunks[..n + 1][..n] == chunks[..n];
      match chunks[n]
      case Stdout(text) => collector.OnStdout(text);
      case Stderr(text) => collector.OnStderr(text);
    }
    assert chunks[..|chunks|] == chunks;
    r := collector.FinishRedacted(exitCode, redactor);
  }

  lemma LastAppend(before: seq<Text>, line: Text, decode: Decoder, pick: Event -> Option<Text>)
    ensures LastOf(before + [line], decode, pick) ==
            if pick(decode(line)).Some? then pick(decode(line)) else LastOf(before, decode, pick)
  {
  }

  lemma SeenAppend(before: seq<Text>, line: Text, decode: Decoder, e: Event)
    ensures Seen(before + [line], decode, e) <==> Seen(before, decode, e) || decode(line) == e
  {
    var after := before + [line];
    if Seen(before, decode, e) {
      var k :| 0 <= k < |before| && decode(before[k]) == e;
      assert decode(after[k]) == e;
    }
    if decode(line) == e {
      assert decode(after[|before|]) == e;
    }
  }
}
