/** Bounded stream collection of crates/xuanling-harness-bridge/src/collector.rs: a rolling
    tail for diagnostics and newline framing with a per-line cap. */
module Collector {
  import opened Redaction
  import opened Whitespace
  import opened Wrappers

  /** How many units of a stream a tail of `limit` units has lost. */
  function Dropped(stream: Text, limit: nat): (n: nat)
    ensures n <= |stream|
  {
    if |stream| <= limit then 0 else |stream| - limit
  }

  ghost function Concat(chunks: seq<Text>): Text
  {
    if chunks == [] then [] else Concat(chunks[..|chunks| - 1]) + chunks[|chunks| - 1]
  }

  /** The diagnostic a tail of `limit` units shows for a whole stream. */
  ghost function TailText(stream: Text, limit: nat, redactor: Redactor): Text
  {
    var tail := stream[Dropped(stream, limit)..];
    Trim(Render(tail, TailMarks(stream, limit, redactor), |tail|))
  }

  /** The retained positions it hides. */
  ghost function TailMarks(stream: Text, limit: nat, redactor: Redactor): iset<int>
  {
    var tail := stream[Dropped(stream, limit)..];
    redactor.Marked(tail, redactor.TailPrefix(tail, Dropped(stream, limit) > 0))
  }

  class TailBuffer {
    var buffer: Text
    const limit: nat
    var clippedStart: bool
    ghost var stream: Text

    /** Whatever the chunking was, the buffer is the end of the stream, and the flag says
        whether anything was lost. */
    ghost predicate Valid()
      reads this
    {
      buffer == stream[Dropped(stream, limit)..] && (clippedStart <==> Dropped(stream, limit) > 0)
    }

    constructor (limit: nat)
      ensures Valid() && this.limit == limit && stream == []
    {
      this.limit := limit;
      buffer := [];
      clippedStart := false;
      stream := [];
    }

    method Push(chunk: Text)
      requires Valid()
      modifies this
      ensures Valid() && stream == old(stream) + chunk
    {
      stream := stream + chunk;
      if |chunk| >= limit {
        clippedStart := clippedStart || buffer != [] || |chunk| > limit;
        buffer := chunk[|chunk| - limit..];
        return;
      }
      buffer := buffer + chunk;
      if |buffer| > limit {
        clippedStart := true;
        var excess := |buffer| - limit;
        buffer := buffer[excess..];
      }
    }

    /** The shown diagnostic depends only on the stream and the limit, and every retained
        position of every configured secret that occurs anywhere in the stream is hidden. */
    method RedactedText(redactor: Redactor) returns (text: Option<Text>, redacted: bool)
      requires Valid() && redactor.Valid()
      ensures text == (var shown := TailText(stream, limit, redactor); if shown == [] then None else Some(shown))
      ensures redacted <==> exists i :: i in TailMarks(stream, limit, redactor)
      ensures forall i: nat | Dropped(stream, limit) <= i && redactor.InSecret(stream, i)
                :: i - Dropped(stream, limit) in TailMarks(stream, limit, redactor)
    {
      hide Render, Redactor.Marked, Redactor.InSecret, Redactor.TailPrefix, Trim;
      var output;
      output, redacted := redactor.RedactTail(buffer, clippedStart);
      output := Trim(output);
      text := if output == [] then None else Some(output);
      RetainedSecretsAreHidden(stream, limit, redactor);
    }
  }

  /** Every retained position of every configured secret that occurs anywhere in the stream
      is hidden. */
  lemma RetainedSecretsAreHidden(stream: Text, limit: nat, redactor: Redactor)
    ensures forall i: nat | Dropped(stream, limit) <= i && redactor.InSecret(stream, i)
              :: i - Dropped(stream, limit) in TailMarks(stream, limit, redactor)
  {
    hide Redactor.Marked, Redactor.InSecret, Redactor.TailPrefix;
    forall i: nat | Dropped(stream, limit) <= i && redactor.InSecret(stream, i)
      ensures i - Dropped(stream, limit) in TailMarks(stream, limit, redactor)
    {
      redactor.RetainedSecretIsMarked(stream, Dropped(stream, limit), i);
    }
  }

  /** What a tail buffer shows of a stream, exactly: its last units up to the limit, trimmed, with these
      positions hidden and no others. Only when something was lost are an end of a secret and a run of
      units that may continue a pattern hidden at the start. */
  lemma ShownExactly(stream: Text, limit: nat, redactor: Redactor, i: int)
    ensures var lost := if |stream| > limit then |stream| - limit else 0;
            var tail := stream[lost..];
            TailText(stream, limit, redactor) == Trim(Render(tail, TailMarks(stream, limit, redactor), |tail|)) &&
            (i in TailMarks(stream, limit, redactor) <==>
               0 <= i < |tail| &&
               (redactor.InSecret(tail, i) || redactor.InPattern(tail, i) ||
                (|stream| > limit && redactor.InSecretEnd(tail, i)) ||
                (|stream| > limit && redactor.patterns != [] && forall j | 0 <= j <= i :: MayContinuePattern(tail[j]))))
  {
    hide Render, Redactor.Marked, Redactor.InSecret, Redactor.InPattern, Redactor.InSecretEnd, Redactor.TailPrefix,
         Trim,
         MayContinuePattern;
    var tail := stream[Dropped(stream, limit)..];
    if 0 <= i < |tail| {
      redactor.HiddenExactlyWhen(tail, |stream| > limit, i);
    } else {
      MarksAreInside(redactor, tail, redactor.TailPrefix(tail, |stream| > limit), i);
    }
  }

  lemma MarksAreInside(redactor: Redactor, tail: Text, prefix: nat, i: int)
    ensures i in redactor.Marked(tail, prefix) ==> 0 <= i < |tail|
  {
  }

  /** A stream that fits and has no secret or pattern in it is shown as it is, trimmed. */
  lemma PlainStreamIsShown(stream: Text, limit: nat, redactor: Redactor)
    requires |stream| <= limit
    requires forall i | 0 <= i < |stream| :: !redactor.InSecret(stream, i) && !redactor.InPattern(stream, i)
    ensures TailText(stream, limit, redactor) == Trim(stream)
  {
    hide Render, Redactor.Marked, Redactor.InSecret, Redactor.InPattern, Redactor.InSecretEnd, Redactor.TailPrefix,
         Trim,
         TailMarks;
    var marks := TailMarks(stream, limit, redactor);
    assert stream[0..] == stream && stream[0..|stream|] == stream;
    forall i | 0 <= i < |stream| ensures i !in marks { ShownExactly(stream, limit, redactor, i); }
    ShownExactly(stream, limit, redactor, 0);
    RenderNothing(stream, marks);
    RenderPlain(stream, marks, 0, |stream|);
    assert [] + stream == stream;
  }

  /** For every split of a stream into chunks the tail buffer ends in the same state. */
  method FeedTail(limit: nat, chunks: seq<Text>) returns (tail: TailBuffer)
    ensures fresh(tail) && tail.Valid() && tail.limit == limit && tail.stream == Concat(chunks)
  {
    tail := new TailBuffer(limit);
    for n := 0 to |chunks|
      invariant fresh(tail) && tail.Valid() && tail.stream == Concat(chunks[..n])
    {
      tail.Push(chunks[n]);
      assert chunks[..n + 1][..n] == chunks[..n];
    }
    assert chunks[..|chunks|] == chunks;
  }

  // ---- line framing ------------------------------------------------------------------

  /** The segments of a stream between newlines; the last one is not terminated. */
  ghost function Split(stream: Text): (segments: seq<Text>)
    ensures segments != []
  {
    if stream == [] then [[]]
    else
      var before, c := Split(stream[..|stream| - 1]), stream[|stream| - 1];
      if c == '\n' then before + [[]]
      else before[..|before| - 1] + [before[|before| - 1] + [c]]
  }

  ghost function Join(segments: seq<Text>): Text
    requires segments != []
  {
    if |segments| == 1 then segments[0]
    else Join(segments[..|segments| - 1]) + "\n" + segments[|segments| - 1]
  }

  /** Split cuts exactly at the newlines: joining gives the stream back and no segment
      contains one. */
  lemma {:induction false} SplitIsExact(stream: Text)
    ensures Join(Split(stream)) == stream
    ensures forall k | 0 <= k < |Split(stream)| :: '\n' !in Split(stream)[k]
  {
    if stream != [] {
      var n := |stream| - 1;
      SplitIsExact(stream[..n]);
      var before, segments := Split(stream[..n]), Split(stream);
      var m := |before| - 1;
      if stream[n] == '\n' {
        assert segments[..|segments| - 1] == before;
        assert Join(segments) == Join(before) + "\n" + [];
      } else {
        assert segments[..m] == before[..m];
        assert segments[m] == before[m] + [stream[n]];
      }
      assert stream == stream[..n] + [stream[n]];
    }
  }

  function TrimCr(line: Text): Text
  {
    if line != [] && line[|line| - 1] == '\r' then line[..|line| - 1] else line
  }

  /** What one segment contributes: nothing when empty or longer than the limit. */
  ghost function LineOf(segment: Text, limit: nat): seq<Text>
  {
    if 0 < |segment| <= limit then [TrimCr(segment)] else []
  }

  ghost function LinesOf(segments: seq<Text>, limit: nat): seq<Text>
  {
    if segments == [] then []
    else LinesOf(segments[..|segments| - 1], limit) + LineOf(segments[|segments| - 1], limit)
  }

  /** The lines completed by a newline so far. */
  ghost function CompleteLines(stream: Text, limit: nat): seq<Text>
  {
    var segments := Split(stream);
    LinesOf(segments[..|segments| - 1], limit)
  }

  /** All lines of a finished stream. */
  ghost function AllLines(stream: Text, limit: nat): seq<Text>
  {
    LinesOf(Split(stream), limit)
  }

  ghost predicate TooLong(segments: seq<Text>, limit: nat)
  {
    exists k :: 0 <= k < |segments| && |segments[k]| > limit
  }

  /** The segment is handed on: it is not empty and not too long. */
  predicate Kept(segment: Text, limit: nat)
  {
    segment != [] && |segment| <= limit
  }

  /** The line of a segment: without one carriage return at its end, if there is one. */
  predicate LineFor(segment: Text, line: Text)
  {
    segment == line + ['\r'] || (segment == line && (line == [] || line[|line| - 1] != '\r'))
  }

  /** The k-th line is that of the segment at where[k]; these are, in order, all segments kept. */
  ghost predicate LinesAt(segments: seq<Text>, limit: nat, lines: seq<Text>, where: seq<nat>)
  {
    |where| == |lines| &&
    (forall k | 0 <= k < |where| :: where[k] < |segments| && Kept(segments[where[k]], limit)) &&
    (forall k | 0 <= k < |where| :: LineFor(segments[where[k]], lines[k])) &&
    (forall j, k | 0 <= j < k < |where| :: where[j] < where[k]) &&
    (forall i | 0 <= i < |segments| && Kept(segments[i], limit) :: i in where)
  }

  lemma OneMoreSegment(segments: seq<Text>, limit: nat, lines: seq<Text>, where: seq<nat>)
    requires segments != [] && LinesAt(segments[..|segments| - 1], limit, lines, where)
    ensures var n := |segments| - 1;
            if Kept(segments[n], limit) then LinesAt(segments, limit, lines + [TrimCr(segments[n])], where + [n])
            else LinesAt(segments, limit, lines, where)
  {
    var n := |segments| - 1;
    TrimmedIsLine(segments[n]);
    hide TrimCr, Kept, LineFor;
    assert forall i | 0 <= i < n :: segments[..n][i] == segments[i];
    var more := where + [n];
    forall i | 0 <= i < |segments| && Kept(segments[i], limit) ensures i in more && (i < n ==> i in where) {
      if i == n { assert more[|where|] == n; }
    }
  }

  lemma TrimmedIsLine(segment: Text)
    ensures LineFor(segment, TrimCr(segment))
  {
  }

  /** The lines of a list of segments, exactly. */
  lemma {:induction false} LinesExactly(segments: seq<Text>, limit: nat) returns (where: seq<nat>)
    ensures LinesAt(segments, limit, LinesOf(segments, limit), where)
    decreases |segments|
  {
    where := [];
    if segments != [] {
      hide LinesAt, TrimCr;
      var n := |segments| - 1;
      where := LinesExactly(segments[..n], limit);
      OneMoreSegment(segments, limit, LinesOf(segments[..n], limit), where);
      if Kept(segments[n], limit) { where := where + [n]; }
    }
  }

  class LineFramer {
    var buffer: Text
    const limit: nat
    var discarding: bool
    var overflow: bool
    ghost var stream: Text

    ghost predicate Valid()
      reads this
    {
      var segments := Split(stream);
      var last := segments[|segments| - 1];
      (discarding <==> |last| > limit) &&
      buffer == (if discarding then [] else last) &&
      (overflow <==> TooLong(segments, limit)) &&
      |buffer| <= limit
    }

    constructor (limit: nat)
      ensures Valid() && this.limit == limit && stream == []
    {
      this.limit := limit;
      buffer := [];
      discarding, overflow := false, false;
      stream := [];
    }

    /** Frame one chunk; the lines handed to the caller are returned in order. */
    method Push(chunk: Text) returns (lines: seq<Text>)
      requires Valid()
      modifies this
      ensures Valid() && stream == old(stream) + chunk
      ensures CompleteLines(stream, limit) == CompleteLines(old(stream), limit) + lines
    {
      hide *;
      lines := [];
      ghost var start := CompleteLines(stream, limit);
      for n := 0 to |chunk|
        invariant Valid() && stream == old(stream) + chunk[..n]
        invariant CompleteLines(stream, limit) == start + lines
      {
        ghost var before := stream;
        var line := PushUnit(chunk[n]);
        assert stream == old(stream) + chunk[..n + 1] by {
          assert chunk[..n + 1] == chunk[..n] + [chunk[n]];
        }
        assert start + lines + line == start + (lines + line);
        lines := lines + line;
      }
      assert chunk[..|chunk|] == chunk;
    }

    method PushUnit(byte: char) returns (lines: seq<Text>)
      requires Valid()
      modifies this
      ensures Valid() && stream == old(stream) + [byte]
      ensures CompleteLines(stream, limit) == CompleteLines(old(stream), limit) + lines
    {
      lines := [];
      if byte == '\n' {
        lines := CompleteLine();
      } else {
        PushByte(byte);
      }
    }

    method CompleteLine() returns (lines: seq<Text>)
      requires Valid()
      modifies this
      ensures Valid() && stream == old(stream) + ['\n']
      ensures CompleteLines(stream, limit) == CompleteLines(old(stream), limit) + lines
    {
      hide Split, LinesOf, CompleteLines, TooLong;
      NewlineEndsSegment(stream, limit);
      stream := stream + ['\n'];
      lines := [];
      if discarding {
        discarding := false;
      } else if buffer != [] {
        lines := [TrimCr(buffer)];
      }
      buffer := [];
    }

    method PushByte(byte: char)
      requires Valid() && byte != '\n'
      modifies this
      ensures Valid() && stream == old(stream) + [byte]
      ensures CompleteLines(stream, limit) == CompleteLines(old(stream), limit)
    {
      hide Split, LinesOf, CompleteLines, TooLong;
      UnitGrowsSegment(stream, byte, limit);
      stream := stream + [byte];
      if discarding {
        return;
      }
      if |buffer| >= limit {
        overflow := true;
        discarding := true;
        buffer := [];
        return;
      }
      buffer := buffer + [byte];
    }

    /** A trailing line without a newline counts as a line of the stream. */
    method Finish() returns (lines: seq<Text>)
      requires Valid()
      modifies this
      ensures AllLines(stream, limit) == CompleteLines(stream, limit) + lines
      ensures stream == old(stream) && (overflow <==> TooLong(Split(stream), limit))
      ensures buffer == [] && !discarding
    {
      lines := [];
      if !discarding && buffer != [] {
        lines := [TrimCr(buffer)];
      }
      if discarding {
        overflow := true;
      }
      buffer := [];
      discarding := false;
    }
  }

  lemma NewlineEndsSegment(stream: Text, limit: nat)
    ensures var before, after := Split(stream), Split(stream + ['\n']);
            after == before + [[]] && (TooLong(before, limit) <==> TooLong(after, limit))
    ensures var before := Split(stream);
            CompleteLines(stream + ['\n'], limit) == CompleteLines(stream, limit) + LineOf(before[|before| - 1], limit)
  {
    var before, longer := Split(stream), stream + ['\n'];
    var after := Split(longer);
    assert longer[..|longer| - 1] == stream;
    assert after[..|after| - 1] == before;
    if TooLong(before, limit) {
      var k :| 0 <= k < |before| && |before[k]| > limit;
      assert |after[k]| > limit;
    }
  }

  lemma UnitGrowsSegment(stream: Text, byte: char, limit: nat)
    requires byte != '\n'
    ensures var before, after := Split(stream), Split(stream + [byte]);
            |after| == |before| && after[|after| - 1] == before[|before| - 1] + [byte] &&
            (TooLong(after, limit) <==> TooLong(before, limit) || |before[|before| - 1]| >= limit) &&
            (|before[|before| - 1]| > limit ==> TooLong(before, limit))
    ensures CompleteLines(stream + [byte], limit) == CompleteLines(stream, limit)
  {
    var before, longer := Split(stream), stream + [byte];
    assert longer[..|longer| - 1] == stream;
    var m := |before| - 1;
    var after := Split(longer);
    assert after == before[..m] + [before[m] + [byte]];
    assert after[..m] == before[..m];
    if |before[m]| >= limit {
      assert |after[m]| > limit;
    } else if TooLong(before, limit) {
      var k :| 0 <= k < |before| && |before[k]| > limit;
      assert after[k] == before[k];
    }
  }
}
