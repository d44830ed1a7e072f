/** The token shapes that redaction knows besides configured secrets, and what becomes of one whose
    beginning was discarded (crates/xuanling-harness-bridge/src/redact.rs). */
module TokenShapes {
  import opened Whitespace
  import opened Redaction

  /** The two letters beyond ASCII that fold to an ASCII letter when case is ignored. */
  const LONG_S: char := 0x17F as char
  const KELVIN: char := 0x212A as char

  predicate FoldedLetter(c: char)
  {
    c == LONG_S || c == KELVIN
  }

  predicate Letter(c: char)
  {
    'a' <= c <= 'z' || 'A' <= c <= 'Z'
  }

  predicate Digit(c: char)
  {
    '0' <= c <= '9'
  }

  /** A unit that equals this lower-case letter when case is ignored. */
  predicate Folds(c: char, letter: char)
  {
    c == letter || ('a' <= letter <= 'z' && c as int == letter as int - 32) ||
    (letter == 's' && c == LONG_S) || (letter == 'k' && c == KELVIN)
  }

  predicate Word(s: Text, word: string)
  {
    |s| == |word| && forall i | 0 <= i < |s| :: Folds(s[i], word[i])
  }

  /** The token class of the patterns that ignore case. */
  predicate TokenUnit(c: char)
  {
    Letter(c) || Digit(c) || c in "._~+/-" || FoldedLetter(c)
  }

  predicate Blanks(s: Text, from: nat, to: nat)
  {
    from <= to <= |s| && forall j | from <= j < to :: IsWhitespace(s[j])
  }

  predicate TokenFrom(s: Text, from: nat)
  {
    from + 16 <= |s| && forall j | from <= j < |s| :: TokenUnit(s[j])
  }

  /** bearer, blanks, token. */
  ghost predicate Bearer(s: Text)
  {
    exists a: nat :: 6 < a && a <= |s| && Word(s[..6], "bearer") && Blanks(s, 6, a) && TokenFrom(s, a)
  }

  /** sk- and a token of its own class. */
  predicate SecretKey(s: Text)
  {
    |s| >= 19 && s[..3] == "sk-" && forall j | 3 <= j < |s| :: Letter(s[j]) || Digit(s[j]) || s[j] in "_-"
  }

  predicate Joined(s: Text, first: string, second: string)
  {
    (|s| == |first| + |second| && Word(s[..|first|], first) && Word(s[|first|..], second)) ||
    (|s| == |first| + 1 + |second| && Word(s[..|first|], first) && s[|first|] in "_-" &&
     Word(s[|first| + 1..], second))
  }

  predicate Name(s: Text)
  {
    Joined(s, "api", "key") || Joined(s, "access", "token") || Joined(s, "client", "secret")
  }

  /** A name, a colon or equals sign, perhaps a quote, and a token, with blanks around the sign. */
  ghost predicate Assigned(s: Text)
  {
    exists n: nat, sign: nat, open: nat, value: nat :: AssignedAt(s, n, sign, open, value)
  }

  predicate AssignedAt(s: Text, n: nat, sign: nat, open: nat, value: nat)
  {
    n <= sign < open <= value <= |s| && Name(s[..n]) && Blanks(s, n, sign) && s[sign] in ":=" &&
    Blanks(s, sign + 1, open) && (value == open || (value == open + 1 && s[open] in "'\"")) && TokenFrom(s, value)
  }

  ghost predicate Token(s: Text)
  {
    Bearer(s) || SecretKey(s) || Assigned(s)
  }

  lemma WordUnits(s: Text, word: string)
    requires Word(s, word) && forall i | 0 <= i < |word| :: 'a' <= word[i] <= 'z'
    ensures forall i | 0 <= i < |s| :: MayContinuePattern(s[i]) || FoldedLetter(s[i])
  {
  }

  lemma NameUnits(s: Text)
    requires Name(s)
    ensures forall i | 0 <= i < |s| :: MayContinuePattern(s[i]) || FoldedLetter(s[i])
  {
    hide IsWhitespace, Word;
    forall first, second | Joined(s, first, second) && first in {"api", "access", "client"} &&
                           second in {"key", "token", "secret"}
      ensures forall i | 0 <= i < |s| :: MayContinuePattern(s[i]) || FoldedLetter(s[i])
    {
      JoinedUnits(s, first, second);
    }
  }

  lemma JoinedUnits(s: Text, first: string, second: string)
    requires Joined(s, first, second)
    requires forall i | 0 <= i < |first| :: 'a' <= first[i] <= 'z'
    requires forall i | 0 <= i < |second| :: 'a' <= second[i] <= 'z'
    ensures forall i | 0 <= i < |s| :: MayContinuePattern(s[i]) || FoldedLetter(s[i])
  {
    hide IsWhitespace, Word, FoldedLetter;
    var k := |first|;
    WordUnits(s[..k], first);
    var rest := if |s| == k + |second| then k else k + 1;
    WordUnits(s[rest..], second);
    forall i | 0 <= i < |s| ensures MayContinuePattern(s[i]) || FoldedLetter(s[i]) {
      if i < k {
        assert s[i] == s[..k][i];
      } else if rest <= i {
        assert s[i] == s[rest..][i - rest];
      }
    }
  }

  /** Every unit of a token is one the leading run goes over, or one of the two folded letters. */
  lemma TokenUnits(s: Text)
    requires Token(s)
    ensures forall i | 0 <= i < |s| :: MayContinuePattern(s[i]) || FoldedLetter(s[i])
  {
    hide IsWhitespace, Word, Name;
    if Bearer(s) {
      var a: nat :| 6 < a && a <= |s| && Word(s[..6], "bearer") && Blanks(s, 6, a) && TokenFrom(s, a);
      WordUnits(s[..6], "bearer");
      forall i | 0 <= i < |s| ensures MayContinuePattern(s[i]) || FoldedLetter(s[i]) {
        if i < 6 { assert s[i] == s[..6][i]; }
      }
    } else if SecretKey(s) {
      forall i | 0 <= i < |s| ensures MayContinuePattern(s[i]) {
        if i < 3 { assert s[i] == s[..3][i]; }
      }
    } else {
      var n: nat, sign: nat, open: nat, value: nat :| AssignedAt(s, n, sign, open, value);
      NameUnits(s[..n]);
      forall i | 0 <= i < |s| ensures MayContinuePattern(s[i]) || FoldedLetter(s[i]) {
        if i < n { assert s[i] == s[..n][i]; }
      }
    }
  }

  predicate NoFoldedLetter(s: Text, from: nat, to: nat)
  {
    from <= to <= |s| && forall j | from <= j < to :: !FoldedLetter(s[j])
  }

  /** What is left of a token that was cut is hidden by the leading run, up to any of its positions, if
      and only if neither of the two letters occurs before it. */
  lemma ClippedTokenExactlyWhen(stream: Text, dropped: nat, token: Range, i: nat)
    requires token.start <= dropped <= i < token.end <= |stream| && Token(stream[token.start..token.end])
    ensures i - dropped < LeadingRun(stream[dropped..], 0) <==> NoFoldedLetter(stream, dropped, i + 1)
  {
    hide IsWhitespace, Token;
    var s, tail := stream[token.start..token.end], stream[dropped..];
    TokenUnits(s);
    forall j | token.start <= j < token.end ensures MayContinuePattern(stream[j]) || FoldedLetter(stream[j]) {
      assert stream[j] == s[j - token.start];
    }
    if NoFoldedLetter(stream, dropped, i + 1) {
      forall j | 0 <= j <= i - dropped ensures MayContinuePattern(tail[j]) { assert tail[j] == stream[dropped + j]; }
      LeadingRunReaches(tail, 0, i - dropped);
    } else {
      var j :| dropped <= j < i + 1 && FoldedLetter(stream[j]);
      FoldedStops(stream[j]);
      LeadingRunStops(tail, 0, j - dropped);
    }
  }

  /** What may continue a pattern: digits, letters, ten punctuation marks, the replacement character and
      whitespace, and nothing else. */
  lemma RunUnitsExactly(c: char)
    ensures MayContinuePattern(c) <==>
              0x30 <= c as int <= 0x39 || 0x41 <= c as int <= 0x5A || 0x61 <= c as int <= 0x7A ||
              c as int in {0x22, 0x27, 0x2B, 0x2D, 0x2E, 0x2F, 0x3A, 0x3D, 0x5F, 0x7E, 0xFFFD} || IsWhitespace(c)
  {
    assert c in "._~+/-:='\"" <==> c as int in {0x22, 0x27, 0x2B, 0x2D, 0x2E, 0x2F, 0x3A, 0x3D, 0x5F, 0x7E};
  }

  lemma FoldedStops(c: char)
    requires FoldedLetter(c)
    ensures !MayContinuePattern(c)
  {
  }

  lemma {:induction false} LeadingRunStops(text: Text, from: nat, at: nat)
    requires from <= at < |text| && !MayContinuePattern(text[at])
    ensures LeadingRun(text, from) <= at
    decreases at - from
  {
    hide MayContinuePattern;
    if MayContinuePattern(text[from]) {
      LeadingRunStops(text, from + 1, at);
    }
  }

  /** So a redactor that knows these shapes hides the rest of such a token. */
  lemma ClippedTokenIsHidden(redactor: Redactor, stream: Text, dropped: nat, token: Range, i: nat)
    requires redactor.patterns != [] && 0 < dropped && token.start <= dropped <= i < token.end <= |stream|
    requires Token(stream[token.start..token.end]) && NoFoldedLetter(stream, dropped, i + 1)
    ensures i - dropped in redactor.Marked(stream[dropped..], redactor.TailPrefix(stream[dropped..], true))
  {
    hide Token, NoFoldedLetter;
    ClippedTokenExactlyWhen(stream, dropped, token, i);
  }

  /** It can show: in a bearer token with a long s, cut after the marker, everything from that letter on
      is printed, unless a secret or a pattern matches there again. */
  lemma FoldedLetterShows(redactor: Redactor)
    requires redactor.secrets == [] && forall k | 0 <= k < |redactor.patterns| :: redactor.patterns[k](CutToken()) == []
    ensures Token("Bearer " + CutToken()) && CutToken()[4] == LONG_S
    ensures forall i | 4 <= i < |CutToken()| :: i !in redactor.Marked(CutToken(), redactor.TailPrefix(CutToken(), true))
  {
    CutTokenIsToken();
    FoldedStops(LONG_S);
    LeadingRunStops(CutToken(), 0, 4);
  }

  lemma CutTokenIsToken()
    ensures Token("Bearer " + CutToken()) && |CutToken()| == 17
  {
    var s := "Bearer " + CutToken();
    assert s[..6] == "Bearer";
    assert Word(s[..6], "bearer") && Blanks(s, 6, 7);
    forall j | 7 <= j < |s| ensures TokenUnit(s[j]) { assert s[j] == CutToken()[j - 7]; }
    assert TokenFrom(s, 7);
    assert Bearer(s);
  }

  function CutToken(): Text
  {
    "abcd" + [LONG_S] + "efghijklmnop"
  }
}
