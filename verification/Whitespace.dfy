/** Whitespace and trimming, as Rust's `str::trim` defines them. */
module Whitespace {

  /** The Unicode White_Space property. */
  predicate IsWhitespace(c: char)
  {
    var u := c as int;
    9 <= u <= 13 || u in {0x20, 0x85, 0xA0, 0x1680, 0x2028, 0x2029, 0x202F, 0x205F, 0x3000} || 0x2000 <= u <= 0x200A
  }

  function TrimStart(text: string): string
  {
    if text == [] || !IsWhitespace(text[0]) then text else TrimStart(text[1..])
  }

  function TrimEnd(text: string): string
  {
    if text == [] || !IsWhitespace(text[|text| - 1]) then text else TrimEnd(text[..|text| - 1])
  }

  function Trim(text: string): string
  {
    TrimEnd(TrimStart(text))
  }

  predicate Blank(text: string)
  {
    Trim(text) == []
  }

  predicate AllWhitespace(text: string)
  {
    forall i | 0 <= i < |text| :: IsWhitespace(text[i])
  }

  /** What trimming leaves is the text without whitespace around it: it neither starts nor ends with
      any, and only whitespace was taken. */
  lemma TrimExactly(text: string) returns (before: string, after: string)
    ensures text == before + Trim(text) + after && AllWhitespace(before) && AllWhitespace(after)
    ensures Trim(text) != [] ==> !IsWhitespace(Trim(text)[0]) && !IsWhitespace(Trim(text)[|Trim(text)| - 1])
  {
    hide IsWhitespace;
    before := StartTrimmed(text);
    after := EndTrimmed(TrimStart(text));
  }

  lemma {:induction false} StartTrimmed(text: string) returns (before: string)
    ensures text == before + TrimStart(text) && AllWhitespace(before)
    ensures TrimStart(text) != [] ==> !IsWhitespace(TrimStart(text)[0])
    decreases |text|
  {
    hide IsWhitespace;
    before := [];
    if text != [] && IsWhitespace(text[0]) {
      var rest := StartTrimmed(text[1..]);
      before := [text[0]] + rest;
    }
  }

  lemma {:induction false} EndTrimmed(text: string) returns (after: string)
    ensures text == TrimEnd(text) + after && AllWhitespace(after)
    ensures TrimEnd(text) != [] ==> TrimEnd(text)[0] == text[0] && !IsWhitespace(TrimEnd(text)[|TrimEnd(text)| - 1])
    decreases |text|
  {
    hide IsWhitespace;
    after := [];
    if text != [] && IsWhitespace(text[|text| - 1]) {
      var rest := EndTrimmed(text[..|text| - 1]);
      after := rest + [text[|text| - 1]];
    }
  }

  /** Only whitespace is trimmed to nothing. */
  lemma BlankExactlyWhen(text: string)
    ensures Blank(text) <==> AllWhitespace(text)
  {
    hide IsWhitespace;
    var before, after := TrimExactly(text);
    var core := Trim(text);
    if core != [] {
      assert text[|before|] == core[0];
    } else {
      assert text == before + after;
    }
  }
}
