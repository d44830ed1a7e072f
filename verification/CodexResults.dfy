/** What the Codex adapter answers, said of the lines and events of the run
    (crates/xuanling-harness-bridge/src/adapters/codex.rs). */
module CodexResults {
  import opened Redaction
  import opened Whitespace
  import opened Wrappers
  import opened Collector
  import opened Codex

  /** Line k carries the agent message t. */
  ghost predicate Says(lines: seq<Text>, decode: Decoder, k: nat, t: Text)
  {
    k < |lines| && decode(lines[k]) == ItemCompleted(true, Some(t))
  }

  /** The last agent message of the run. */
  ghost predicate LastMessage(lines: seq<Text>, decode: Decoder, t: Text)
  {
    exists k: nat :: Says(lines, decode, k, t) && forall j: nat, u | k < j :: !Says(lines, decode, j, u)
  }

  ghost predicate NoMessage(lines: seq<Text>, decode: Decoder)
  {
    forall k: nat, t :: !Says(lines, decode, k, t)
  }

  /** Line k is a failure event with this text. */
  ghost predicate FailsAs(lines: seq<Text>, decode: Decoder, k: nat, t: Text)
  {
    k < |lines| &&
    var e := decode(lines[k]);
    e == TurnFailed(Some(t)) || e == StreamError(Some(t)) ||
    (e == TurnFailed(None) && t == "codex turn failed") || (e == StreamError(None) && t == "codex reported an error")
  }

  ghost predicate LastFailure(lines: seq<Text>, decode: Decoder, t: Text)
  {
    exists k: nat :: FailsAs(lines, decode, k, t) && forall j: nat, u | k < j :: !FailsAs(lines, decode, j, u)
  }

  ghost predicate NoFailure(lines: seq<Text>, decode: Decoder)
  {
    forall k: nat, t :: !FailsAs(lines, decode, k, t)
  }

  ghost predicate TurnEnds(lines: seq<Text>, decode: Decoder)
  {
    exists k :: 0 <= k < |lines| && decode(lines[k]) == TurnCompleted
  }

  /** A line was dropped because it is too long, or cannot be decoded. */
  ghost predicate SomethingLost(stdout: Text, maxLine: nat, lines: seq<Text>, decode: Decoder)
  {
    (exists k :: 0 <= k < |Split(stdout)| && |Split(stdout)[k]| > maxLine) ||
    (exists k :: 0 <= k < |lines| && decode(lines[k]) == Invalid)
  }

  lemma MessageIsSaid(lines: seq<Text>, decode: Decoder)
    ensures match LastOf(lines, decode, MessageOf)
            case None => NoMessage(lines, decode)
            case Some(t) => LastMessage(lines, decode, t)
  {
    hide LastOf;
    LastOfIsLast(lines, decode, MessageOf);
    var last := LastOf(lines, decode, MessageOf);
    if last.Some? {
      var k: nat :| k < |lines| && MessageOf(decode(lines[k])) == last &&
                    forall j | k < j < |lines| :: MessageOf(decode(lines[j])).None?;
      assert Says(lines, decode, k, last.value);
    }
  }

  lemma FailureIsLast(lines: seq<Text>, decode: Decoder)
    ensures match LastOf(lines, decode, FailureOf)
            case None => NoFailure(lines, decode)
            case Some(t) => LastFailure(lines, decode, t)
  {
    hide LastOf;
    LastOfIsLast(lines, decode, FailureOf);
    var last := LastOf(lines, decode, FailureOf);
    if last.Some? {
      var k: nat :| k < |lines| && FailureOf(decode(lines[k])) == last &&
                    forall j | k < j < |lines| :: FailureOf(decode(lines[j])).None?;
      assert FailsAs(lines, decode, k, last.value);
    }
  }

  /** There is one last message, and one last failure. */
  lemma LastIsOne(lines: seq<Text>, decode: Decoder)
    ensures forall t, u | LastMessage(lines, decode, t) && LastMessage(lines, decode, u) :: t == u
    ensures forall t, u | LastFailure(lines, decode, t) && LastFailure(lines, decode, u) :: t == u
    ensures NoMessage(lines, decode) ==> forall t :: !LastMessage(lines, decode, t)
    ensures NoFailure(lines, decode) ==> forall t :: !LastFailure(lines, decode, t)
  {
    forall t, u | LastMessage(lines, decode, t) && LastMessage(lines, decode, u) ensures t == u {
      var k: nat :| Says(lines, decode, k, t) && forall j: nat, v | k < j :: !Says(lines, decode, j, v);
      var i: nat :| Says(lines, decode, i, u) && forall j: nat, v | i < j :: !Says(lines, decode, j, v);
      assert k == i;
    }
    forall t, u | LastFailure(lines, decode, t) && LastFailure(lines, decode, u) ensures t == u {
      var k: nat :| FailsAs(lines, decode, k, t) && forall j: nat, v | k < j :: !FailsAs(lines, decode, j, v);
      var i: nat :| FailsAs(lines, decode, i, u) && forall j: nat, v | i < j :: !FailsAs(lines, decode, j, v);
      assert k == i;
    }
  }

  /** The last message, if there is one, is more than blanks. */
  ghost predicate Answered(lines: seq<Text>, decode: Decoder)
  {
    exists t :: LastMessage(lines, decode, t) && !AllWhitespace(t)
  }

  ghost function Shown(text: Text): Option<Text>
  {
    if text == [] then None else Some(text)
  }

  /** Which outcome a run has. */
  lemma OutcomeExactly(stdout: Text, stderr: Text, exitCode: Option<int>, decode: Decoder, limits: Limits,
                       redactor: Redactor)
    ensures var lines := AllLines(stdout, limits.maxLine);
            var r := ResultOf(stdout, stderr, exitCode, decode, limits, redactor);
            (r.outcome.NativeFailure? <==> !NoFailure(lines, decode)) &&
            (r.outcome.ExitFailure? <==> NoFailure(lines, decode) && exitCode != Some(0)) &&
            (r.outcome.MissingTurnCompleted? <==>
               NoFailure(lines, decode) && exitCode == Some(0) && !TurnEnds(lines, decode)) &&
            (r.outcome.MissingFinalMessage? <==>
               NoFailure(lines, decode) && exitCode == Some(0) && TurnEnds(lines, decode) &&
               !Answered(lines, decode)) &&
            (r.outcome.Completed? <==>
               NoFailure(lines, decode) && exitCode == Some(0) && TurnEnds(lines, decode) && Answered(lines, decode)) &&
            (r.outcome.ExitFailure? ==>
               r.outcome.exit == (if exitCode.Some? then exitCode.value else -1) &&
               r.outcome.diagnostic == r.diagnostic)
  {
    var lines := AllLines(stdout, limits.maxLine);
    var message := LastOf(lines, decode, MessageOf);
    SeenTurn(lines, decode);
    hide Render, Redactor.Marked, TailMarks, TailText, AllLines, Split, Seen, LastOf, Truncate, TooLong, Blank,
         LastMessage,
         LastFailure, NoFailure, NoMessage, TurnEnds;
    MessageIsSaid(lines, decode);
    FailureIsLast(lines, decode);
    FailureOrNot(lines, decode);
    LastIsOne(lines, decode);
    if message.Some? { BlankExactlyWhen(message.value); }
  }

  lemma SeenTurn(lines: seq<Text>, decode: Decoder)
    ensures Seen(lines, decode, TurnCompleted) <==> TurnEnds(lines, decode)
  {
  }

  lemma FailureOrNot(lines: seq<Text>, decode: Decoder)
    ensures (exists t :: LastFailure(lines, decode, t)) ==> !NoFailure(lines, decode)
  {
  }

  /** Which texts are returned with it: the last agent message of a run that completed or failed, and the
      shown end of the error stream. */
  lemma TextsExactly(stdout: Text, stderr: Text, exitCode: Option<int>, decode: Decoder, limits: Limits,
                     redactor: Redactor)
    ensures var lines := AllLines(stdout, limits.maxLine);
            var r := ResultOf(stdout, stderr, exitCode, decode, limits, redactor);
            r.diagnostic == Shown(TailText(stderr, limits.maxDiagnostic, redactor)) &&
            (r.outcome.MissingTurnCompleted? || r.outcome.MissingFinalMessage? ==> r.finalText == None) &&
            (r.outcome.Completed? || r.outcome.NativeFailure? || r.outcome.ExitFailure? ==>
               if r.finalText.Some? then LastMessage(lines, decode, r.finalText.value) else NoMessage(lines, decode)) &&
            (r.outcome.Completed? ==> r.finalText.Some?)
  {
    hide Render, Redactor.Marked, TailMarks, TailText, AllLines, Split, Seen, LastOf, Truncate, TooLong, Blank,
         LastMessage,
         NoMessage;
    MessageIsSaid(AllLines(stdout, limits.maxLine), decode);
  }

  /** The text of the last failure, followed by the diagnostic if there is one. */
  ghost predicate FailureText(lines: seq<Text>, decode: Decoder, diagnostic: Option<Text>, text: Text)
  {
    exists t :: LastFailure(lines, decode, t) &&
                text == if diagnostic.Some? then t + " | " + diagnostic.value else t
  }

  /** The message of a failed run is that text, with secrets and patterns hidden, up to the limit. */
  lemma FailureMessageExactly(stdout: Text, stderr: Text, exitCode: Option<int>, decode: Decoder, limits: Limits,
                              redactor: Redactor)
    returns (text: Text)
    ensures var lines := AllLines(stdout, limits.maxLine);
            var r := ResultOf(stdout, stderr, exitCode, decode, limits, redactor);
            r.outcome.NativeFailure? ==>
              FailureText(lines, decode, r.diagnostic, text) &&
              var whole := Render(text, redactor.Marked(text, 0), |text|);
              r.outcome.message == whole[..if |whole| <= limits.maxDiagnostic then |whole| else limits.maxDiagnostic] &&
              (r.redacted <==> (exists i :: i in TailMarks(stderr, limits.maxDiagnostic, redactor)) ||
                               (exists i :: i in redactor.Marked(text, 0)))
  {
    hide Render, Redactor.Marked, TailMarks, TailText, AllLines, Split, Seen, LastOf, TooLong, Blank, LastFailure;
    var lines := AllLines(stdout, limits.maxLine);
    FailureIsLast(lines, decode);
    var r := ResultOf(stdout, stderr, exitCode, decode, limits, redactor);
    var failure := LastOf(lines, decode, FailureOf);
    text := [];
    if failure.Some? {
      text := failure.value + if r.diagnostic.Some? then " | " + r.diagnostic.value else [];
      if r.diagnostic.Some? {
        assert failure.value + (" | " + r.diagnostic.value) == failure.value + " | " + r.diagnostic.value;
      }
      assert FailureText(lines, decode, r.diagnostic, text);
    }
  }

  /** When the output is complete, when the protocol is not, and when something was redacted. */
  lemma FlagsExactly(stdout: Text, stderr: Text, exitCode: Option<int>, decode: Decoder, limits: Limits,
                     redactor: Redactor)
    ensures var lines := AllLines(stdout, limits.maxLine);
            var r := ResultOf(stdout, stderr, exitCode, decode, limits, redactor);
            var lost := SomethingLost(stdout, limits.maxLine, lines, decode);
            (r.outputComplete <==> r.outcome.Completed? && !lost) &&
            (r.protocolIncomplete <==>
               lost && (r.outcome.Completed? || r.outcome.NativeFailure? || r.outcome.ExitFailure?)) &&
            (!r.outcome.NativeFailure? ==>
               (r.redacted <==> exists i :: i in TailMarks(stderr, limits.maxDiagnostic, redactor)))
  {
    hide Render, Redactor.Marked, TailMarks, TailText, AllLines, Split, LastOf, Truncate, Blank;
  }
}
