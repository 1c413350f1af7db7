/** The extractor of `$it("name", [captures]() { body });` blocks of the test converter,
    tools/convert_casmine_to_gtest.py. */
module ItBlocks {
  import opened BraceScanner

  /** The regular expression classes \s and \w, on ASCII text. */
  predicate IsSpace(c: char) { c == ' ' || '\t' <= c <= '\r' || '\U{1C}' <= c <= '\U{1F}' }

  predicate IsWord(c: char) { 'a' <= c <= 'z' || 'A' <= c <= 'Z' || '0' <= c <= '9' || c == '_' }

  predicate IsCapture(c: char) { IsWord(c) || c == '&' || c == ',' || c == ' ' }

  predicate NotQuote(c: char) { c != '"' }

  /** The end of the longest run of characters of class p from i on. */
  function Skip(text: string, i: nat, p: char -> bool): (j: nat)
    ensures i <= j && (i <= |text| ==> j <= |text|)
    decreases |text| - i
  {
    if i < |text| && p(text[i]) then Skip(text, i + 1, p) else i
  }

  /** `token` stands at i. */
  predicate Here(text: string, i: nat, token: string) {
    i + |token| <= |text| && text[i..i + |token|] == token
  }

  /** A token after optional white space: the position after it, or -1. */
  function Token(text: string, i: int, token: string): (j: int)
    ensures j == -1 || 0 <= i <= j <= |text|
  {
    if i < 0 then -1
    else var k := Skip(text, i, IsSpace); if Here(text, k, token) then k + |token| else -1
  }

  /** A header found: the name is text[nameFrom..nameTo], and `end` follows the opening brace. */
  datatype Match = NoMatch | Header(start: nat, nameFrom: nat, nameTo: nat, end: nat)

  /** The header expression at position i: `$it`, `(`, a name in quotes, `,`, captures in brackets,
      `()` if `parens`, and `{`. None of its parts can be matched in two ways. */
  function MatchAt(text: string, i: nat, parens: bool): Match {
    if !Here(text, i, "$it") then NoMatch
    else
      var quote := Token(text, Token(text, i + 3, "("), "\"");
      if quote < 0 then NoMatch else MatchName(text, i, quote, parens)
  }

  /** The header from its name on. */
  function MatchName(text: string, i: nat, quote: nat, parens: bool): Match {
    var nameTo := Skip(text, quote, NotQuote);
    if nameTo == quote || nameTo >= |text| then NoMatch
    else
      var bracket := Token(text, Token(text, nameTo + 1, ","), "[");
      if bracket < 0 then NoMatch
      else
        var captured := Skip(text, bracket, IsCapture);
        if !Here(text, captured, "]") then NoMatch
        else
          var end := EndFrom(text, captured, parens);
          if end < 0 then NoMatch else Header(i, quote, nameTo, end)
  }

  /** The position after the header's brace, from the end of the captures on. */
  function EndFrom(text: string, captured: nat, parens: bool): (end: int)
    ensures end == -1 || 0 <= end <= |text|
  {
    Token(text, if parens then Token(text, Token(text, captured + 1, "("), ")") else captured + 1, "{")
  }

  /** The leftmost match from i on. */
  function Search(text: string, i: nat, parens: bool): (m: Match)
    decreases |text| - i
  {
    if i > |text| then NoMatch
    else if MatchAt(text, i, parens) != NoMatch then MatchAt(text, i, parens)
    else Search(text, i + 1, parens)
  }

  /** Blocks with an empty argument list are looked for first, in all of the text. */
  function SearchEither(text: string): Match {
    if Search(text, 0, true) != NoMatch then Search(text, 0, true) else Search(text, 0, false)
  }

  /** What follows the closing parenthesis, semicolon and white space, if they are there. */
  function AfterClose(rest: string): string {
    var close := Token(rest, 0, ")");
    if close < 0 then rest
    else
      var semi := Token(rest, close, ";");
      rest[Skip(rest, if semi < 0 then Skip(rest, close, IsSpace) else semi, IsSpace)..]
  }

  /** One block: its name, its body, and the text left after it; or nothing. */
  datatype Extracted = Nothing | Found(name: string, body: string, rest: string)

  function ExtractOne(text: string): (e: Extracted)
    ensures e.Found? ==> |e.rest| < |text|
  {
    var m := SearchEither(text);
    if m == NoMatch then Nothing
    else
      SearchFinds(text, 0, true);
      SearchFinds(text, 0, false);
      var open := Find(text, "{", m.start + 3);
      if open < 0 then Nothing
      else
        assert text[open] == text[open..open + 1][0];
        ScanFromOpen(text, open);
        var close := Scan(text, open, Code, 0);
        if close < 0 then Nothing
        else Found(text[m.nameFrom..m.nameTo], text[open + 1..close], AfterClose(text[close + 1..]))
  }

  lemma {:induction false} SearchFinds(text: string, i: nat, parens: bool)
    ensures var m := Search(text, i, parens);
            m != NoMatch ==> m.nameFrom <= m.nameTo <= |text| && m.start <= |text|
    decreases |text| - i
  {
    if i <= |text| {
      SearchFinds(text, i + 1, parens);
    }
  }

  function Extract(text: string, limit: nat): seq<(string, string)>
    decreases limit
  {
    if limit == 0 then []
    else
      match ExtractOne(text)
      case Nothing => []
      case Found(name, body, rest) => [(name, body)] + Extract(rest, limit - 1)
  }

  lemma ExtractFound(text: string, limit: nat, name: string, body: string, rest: string)
    requires limit > 0 && ExtractOne(text) == Found(name, body, rest)
    ensures Extract(text, limit) == [(name, body)] + Extract(rest, limit - 1)
  {
    hide ExtractOne;
  }

  lemma ExtractNone(text: string, limit: nat)
    requires limit == 0 || ExtractOne(text) == Nothing
    ensures Extract(text, limit) == []
  {
    hide ExtractOne;
  }

  lemma Regroup(had: seq<(string, string)>, name: string, body: string, more: seq<(string, string)>)
    ensures had + ([(name, body)] + more) == had + [(name, body)] + more
  {
  }

  /** Extracts all blocks, 200 at most. */
  method ExtractItBlocks(text: string) returns (blocks: seq<(string, string)>)
    ensures blocks == Extract(text, 200)
  {
    hide *;
    blocks := [];
    var remaining := text;
    var maxIters: nat := 200;
    while maxIters > 0
      invariant blocks + Extract(remaining, maxIters) == Extract(text, 200)
    {
      var found, name, body, rest := ExtractNext(remaining);
      if !found {
        ExtractNone(remaining, maxIters);
        return;
      }
      ExtractFound(remaining, maxIters, name, body, rest);
      maxIters := maxIters - 1;
      Regroup(blocks, name, body, Extract(rest, maxIters));
      blocks := blocks + [(name, body)];
      remaining := rest;
    }
    ExtractNone(remaining, maxIters);
  }

  /** Lines 750-773: one round of the extraction. */
  method ExtractNext(remaining: string) returns (found: bool, name: string, body: string, rest: string)
    ensures ExtractOne(remaining) == if found then Found(name, body, rest) else Nothing
  {
    found, name, body, rest := false, "", "", "";
    hide Search, AfterClose, MatchAt, Find, Scan;
    var m := Search(remaining, 0, true);
    if m == NoMatch {
      m := Search(remaining, 0, false);
      if m == NoMatch {
        return;
      }
    }
    SearchFinds(remaining, 0, true);
    SearchFinds(remaining, 0, false);
    var braceStart := Find(remaining, "{", m.start + 3);
    if braceStart < 0 {
      return;
    }
    assert remaining[braceStart] == remaining[braceStart..braceStart + 1][0];
    ScanFromOpen(remaining, braceStart);
    var braceEnd := FindMatchingBrace(remaining, braceStart);
    if braceEnd == -1 {
      return;
    }
    return true, remaining[m.nameFrom..m.nameTo], remaining[braceStart + 1..braceEnd],
        AfterClose(remaining[braceEnd + 1..]);
  }
}
