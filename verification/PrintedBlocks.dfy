/** The blocks of the test converter as its input prints them, and what the extractor makes of them. */
module PrintedBlocks {
  import opened BraceScanner
  import opened ItBlocks

  /** The white space that the header and the end of a block may have: before and after its marks,
      in their order; `semi` says whether a semicolon ends the block, and `gap` follows it. */
  datatype Spaces = Spaces(open: string, quote: string, comma: string, bracket: string, args: string, inner: string,
                           brace: string, close: string, semi: bool, beforeSemi: string, gap: string)

  /** A block as the converter's input has it, with an empty argument list or without one. */
  datatype TestBlock = TestBlock(name: string, captures: string, body: string, parens: bool, spaces: Spaces)

  /** `$it("` */
  function Opening(sp: Spaces): string { "$it" + ((sp.open + "(") + (sp.quote + "\"")) }

  /** `", [` */
  function Middle(sp: Spaces): string { "\"" + ((sp.comma + ",") + (sp.bracket + "[")) }

  /** `]()` or `]`, up to the brace */
  function Ending(sp: Spaces, parens: bool): string {
    if parens then "]" + ((sp.args + "(") + ((sp.inner + ")") + sp.brace)) else "]" + sp.brace
  }

  /** Everything before the opening brace. */
  function Head(b: TestBlock): string {
    Opening(b.spaces) + (b.name + (Middle(b.spaces) + (b.captures + Ending(b.spaces, b.parens))))
  }

  /** What follows the closing brace. */
  function Close(sp: Spaces): string {
    (sp.close + ")") + ((if sp.semi then sp.beforeSemi + ";" else "") + sp.gap)
  }

  function Print(b: TestBlock): string { Head(b) + (("{" + b.body + "}") + Close(b.spaces)) }

  function PrintAll(blocks: seq<TestBlock>): string {
    if blocks == [] then "" else Print(blocks[0]) + PrintAll(blocks[1..])
  }

  /** The body, between its braces, is closed for the brace matcher by the last brace. */
  predicate Closed(body: string) {
    Scan("{" + body + "}", 0, Code, 0) == |body| + 1
  }

  predicate White(s: string) { forall i :: 0 <= i < |s| ==> IsSpace(s[i]) }

  predicate SpacesOk(sp: Spaces) {
    && White(sp.open) && White(sp.quote) && White(sp.comma) && White(sp.bracket) && White(sp.args) && White(sp.inner)
    && White(sp.brace) && White(sp.close) && White(sp.beforeSemi) && White(sp.gap)
  }

  /** What the header expression takes. */
  predicate WellFormed(b: TestBlock) {
    && b.name != "" && (forall i :: 0 <= i < |b.name| ==> b.name[i] != '"')
    && (forall i :: 0 <= i < |b.captures| ==> IsCapture(b.captures[i])) && SpacesOk(b.spaces)
  }

  /** What comes back: no brace in the name, and a body that its own last brace closes. */
  predicate Printable(b: TestBlock) { WellFormed(b) && '{' !in b.name && Closed(b.body) }

  /** Text that may follow a block: it does not go on with white space or a semicolon. */
  predicate Follows(rest: string) { rest != "" ==> !IsSpace(rest[0]) && rest[0] != ';' }

  /** Text that no block begins in. */
  predicate NoBlocks(tail: string) { SearchEither(tail) == NoMatch && Follows(tail) }

  lemma HereSplit(text: string, i: nat, a: string, b: string)
    requires Here(text, i, a + b)
    ensures Here(text, i, a) && Here(text, i + |a|, b)
  {
    var s := text[i..i + |a + b|];
    assert s[..|a|] == a && s[|a|..] == b;
  }

  lemma HereChar(text: string, i: nat, s: string, k: nat)
    requires Here(text, i, s) && k < |s|
    ensures i + k < |text| && text[i + k] == s[k]
  {
    assert text[i..i + |s|][k] == s[k];
  }

  lemma {:induction false} SkipTo(text: string, i: nat, j: nat, p: char -> bool)
    requires i <= j <= |text| && (forall k | i <= k < j :: p(text[k])) && (j < |text| ==> !p(text[j]))
    ensures Skip(text, i, p) == j
    decreases j - i
  {
    if i < j {
      SkipTo(text, i + 1, j, p);
    }
  }

  lemma SkipOver(text: string, i: nat, s: string, p: char -> bool)
    requires Here(text, i, s) && (forall c <- s :: p(c)) && (i + |s| < |text| ==> !p(text[i + |s|]))
    ensures Skip(text, i, p) == i + |s|
  {
    forall k | i <= k < i + |s| ensures p(text[k]) {
      HereChar(text, i, s, k - i);
      assert s[k - i] in s;
    }
    SkipTo(text, i, i + |s|, p);
  }

  /** A one-character token after a given run of white space. */
  lemma TokenAfter(text: string, i: nat, space: string, c: char)
    requires Here(text, i, space + [c]) && (forall x <- space :: IsSpace(x)) && !IsSpace(c)
    ensures Token(text, i, [c]) == i + |space| + 1
  {
    HereSplit(text, i, space, [c]);
    HereChar(text, i + |space|, [c], 0);
    SkipOver(text, i, space, IsSpace);
  }

  lemma {:induction false} FindTo(text: string, c: char, i: nat, j: nat)
    requires i <= j < |text| && text[j] == c && forall k | i <= k < j :: text[k] != c
    ensures Find(text, [c], i) == j
    decreases j - i
  {
    assert text[i..i + 1] == [text[i]];
    if i < j {
      FindTo(text, c, i + 1, j);
    }
  }

  lemma White1(s: string, c: char)
    requires White(s) && c in s
    ensures IsSpace(c)
  {
  }

  lemma Marks()
    ensures !IsSpace('(') && !IsSpace('"') && !IsSpace(',') && !IsSpace('[') && !IsSpace(')') && !IsSpace('{')
    ensures !IsSpace(';') && !NotQuote('"') && !IsCapture(']')
  {
  }

  /** A mark after white space. */
  lemma MarkAt(text: string, i: nat, space: string, c: char)
    requires Here(text, i, space + [c]) && White(space) && !IsSpace(c)
    ensures Token(text, i, [c]) == i + |space| + 1
  {
    hide Token;
    forall x | x in space ensures IsSpace(x) {
      White1(space, x);
    }
    TokenAfter(text, i, space, c);
  }

  lemma OpeningMatches(text: string, sp: Spaces)
    requires Here(text, 0, Opening(sp)) && SpacesOk(sp)
    ensures Here(text, 0, "$it") && Token(text, Token(text, 3, "("), "\"") == |Opening(sp)|
  {
    Marks();
    OpeningParts(text, sp);
    hide Here, Token, White, IsSpace;
    MarkAt(text, 3, sp.open, '(');
    MarkAt(text, 4 + |sp.open|, sp.quote, '"');
  }

  lemma OpeningParts(text: string, sp: Spaces)
    requires Here(text, 0, Opening(sp))
    ensures Here(text, 0, "$it") && Here(text, 3, sp.open + ['(']) && Here(text, 4 + |sp.open|, sp.quote + ['"'])
    ensures |Opening(sp)| == 5 + |sp.open| + |sp.quote|
  {
    hide Here;
    HereSplit(text, 0, "$it", (sp.open + "(") + (sp.quote + "\""));
    HereSplit(text, 3, sp.open + "(", sp.quote + "\"");
  }

  lemma MiddleMatches(text: string, p: nat, sp: Spaces)
    requires Here(text, p, Middle(sp)) && SpacesOk(sp)
    ensures Here(text, p, "\"") && Token(text, Token(text, p + 1, ","), "[") == p + |Middle(sp)|
  {
    Marks();
    MiddleParts(text, p, sp);
    hide Here, Token, White, IsSpace;
    MarkAt(text, p + 1, sp.comma, ',');
    MarkAt(text, p + 2 + |sp.comma|, sp.bracket, '[');
  }

  lemma MiddleParts(text: string, p: nat, sp: Spaces)
    requires Here(text, p, Middle(sp))
    ensures Here(text, p, "\"") && Here(text, p + 1, sp.comma + [','])
    ensures Here(text, p + 2 + |sp.comma|, sp.bracket + ['['])
    ensures |Middle(sp)| == 3 + |sp.comma| + |sp.bracket|
  {
    hide Here;
    HereSplit(text, p, "\"", (sp.comma + ",") + (sp.bracket + "["));
    HereSplit(text, p + 1, sp.comma + ",", sp.bracket + "[");
  }

  lemma EndingMatches(text: string, q: nat, sp: Spaces, parens: bool)
    requires Here(text, q, Ending(sp, parens) + "{") && SpacesOk(sp)
    ensures Here(text, q, "]") && EndFrom(text, q, parens) == q + |Ending(sp, parens)| + 1
  {
    hide *;
    Marks();
    EndingParts(text, q, sp, parens);
    SpacesOfEnding(sp);
    if parens {
      var a := q + 2 + |sp.args|;
      MarkAt(text, q + 1, sp.args, '(');
      MarkAt(text, a, sp.inner, ')');
      MarkAt(text, a + |sp.inner| + 1, sp.brace, '{');
      EndWithList(text, q, a, a + |sp.inner| + 1);
    } else {
      MarkAt(text, q + 1, sp.brace, '{');
      EndBare(text, q);
    }
  }

  lemma SpacesOfEnding(sp: Spaces)
    requires SpacesOk(sp)
    ensures White(sp.args) && White(sp.inner) && White(sp.brace)
  {
  }

  lemma EndWithList(text: string, q: nat, a: nat, c: nat)
    requires Token(text, q + 1, "(") == a && Token(text, a, ")") == c
    ensures EndFrom(text, q, true) == Token(text, c, "{")
  {
    hide Token;
  }

  lemma EndBare(text: string, q: nat)
    ensures EndFrom(text, q, false) == Token(text, q + 1, "{")
  {
    hide Token;
  }

  lemma EndingParts(text: string, q: nat, sp: Spaces, parens: bool)
    requires Here(text, q, Ending(sp, parens) + "{")
    ensures Here(text, q, "]")
    ensures parens ==>
              Here(text, q + 1, sp.args + ['(']) && Here(text, q + 2 + |sp.args|, sp.inner + [')'])
              && Here(text, q + 3 + |sp.args| + |sp.inner|, sp.brace + ['{'])
              && |Ending(sp, parens)| == 3 + |sp.args| + |sp.inner| + |sp.brace|
    ensures !parens ==> Here(text, q + 1, sp.brace + ['{']) && |Ending(sp, parens)| == 1 + |sp.brace|
  {
    hide Here;
    if parens {
      var c := sp.brace + "{";
      assert Ending(sp, parens) + "{" == "]" + ((sp.args + "(") + ((sp.inner + ")") + c));
      HereSplit(text, q, "]", (sp.args + "(") + ((sp.inner + ")") + c));
      HereSplit(text, q + 1, sp.args + "(", (sp.inner + ")") + c);
      HereSplit(text, q + 2 + |sp.args|, sp.inner + ")", c);
    } else {
      assert Ending(sp, parens) + "{" == "]" + (sp.brace + "{");
      HereSplit(text, q, "]", sp.brace + "{");
    }
  }

  /** Where the name begins and ends, and the captures. */
  function NameFrom(b: TestBlock): nat { |Opening(b.spaces)| }
  function NameTo(b: TestBlock): nat { NameFrom(b) + |b.name| }
  function CapturesFrom(b: TestBlock): nat { NameTo(b) + |Middle(b.spaces)| }
  function CapturesTo(b: TestBlock): nat { CapturesFrom(b) + |b.captures| }

  lemma HeadParts(text: string, b: TestBlock)
    requires Here(text, 0, Head(b) + "{")
    ensures Here(text, 0, Opening(b.spaces)) && Here(text, NameFrom(b), b.name)
    ensures Here(text, NameTo(b), Middle(b.spaces))
    ensures Here(text, CapturesFrom(b), b.captures) && Here(text, CapturesTo(b), Ending(b.spaces, b.parens) + "{")
    ensures |Head(b)| == CapturesTo(b) + |Ending(b.spaces, b.parens)|
  {
    var e, m := Ending(b.spaces, b.parens), Middle(b.spaces);
    HeadAgain(Opening(b.spaces), b.name, m, b.captures, e);
    hide Here, Opening, Middle, Ending;
    HereSplit(text, 0, Opening(b.spaces), b.name + (m + (b.captures + (e + "{"))));
    HereSplit(text, NameFrom(b), b.name, m + (b.captures + (e + "{")));
    HereSplit(text, NameTo(b), m, b.captures + (e + "{"));
    HereSplit(text, CapturesFrom(b), b.captures, e + "{");
  }

  lemma HeadAgain(o: string, n: string, m: string, c: string, e: string)
    ensures o + (n + (m + (c + e))) + "{" == o + (n + (m + (c + (e + "{"))))
  {
  }

  lemma MatchFrom(text: string, n0: nat, n1: nat, n2: nat, n3: nat, end: nat, parens: bool)
    requires n0 < n1 < |text| && Here(text, 0, "$it") && Token(text, Token(text, 3, "("), "\"") == n0
    requires Skip(text, n0, NotQuote) == n1 && Token(text, Token(text, n1 + 1, ","), "[") == n2
    requires Skip(text, n2, IsCapture) == n3 && Here(text, n3, "]")
    requires EndFrom(text, n3, parens) == end
    ensures MatchAt(text, 0, parens) == Header(0, n0, n1, end)
  {
    hide Here, Token, Skip, EndFrom;
  }

  /** The header of a printed block is found, with its name, whatever its white space. */
  lemma HeaderMatches(text: string, b: TestBlock)
    requires Here(text, 0, Head(b) + "{") && WellFormed(b)
    ensures MatchAt(text, 0, b.parens) == Header(0, NameFrom(b), NameTo(b), |Head(b)| + 1)
  {
    hide *;
    HeadParts(text, b);
    WellFormedParts(b);
    Marks();
    OpeningMatches(text, b.spaces);
    MiddleMatches(text, NameTo(b), b.spaces);
    EndingMatches(text, CapturesTo(b), b.spaces, b.parens);
    Places(b);
    HereChar(text, NameTo(b), "\"", 0);
    HereChar(text, CapturesTo(b), "]", 0);
    SkipOver(text, NameFrom(b), b.name, NotQuote);
    SkipOver(text, CapturesFrom(b), b.captures, IsCapture);
    MatchFrom(text, NameFrom(b), NameTo(b), CapturesFrom(b), CapturesTo(b), |Head(b)| + 1, b.parens);
  }

  lemma Places(b: TestBlock)
    ensures NameFrom(b) == |Opening(b.spaces)| && NameTo(b) == NameFrom(b) + |b.name|
    ensures CapturesFrom(b) == NameTo(b) + |Middle(b.spaces)| && CapturesTo(b) == CapturesFrom(b) + |b.captures|
  {
  }

  lemma WellFormedParts(b: TestBlock)
    requires WellFormed(b)
    ensures b.name != "" && SpacesOk(b.spaces)
    ensures forall c <- b.name :: NotQuote(c)
    ensures forall c <- b.captures :: IsCapture(c) && c != '{'
  {
    hide SpacesOk;
  }

  lemma NoBraceIn(text: string, i: nat, s: string)
    requires Here(text, i, s) && (forall c <- s :: c != '{')
    ensures i + |s| <= |text| && forall k | i <= k < i + |s| :: text[k] != '{'
  {
    forall k | i <= k < i + |s| ensures text[k] != '{' {
      HereChar(text, i, s, k - i);
      assert s[k - i] in s;
    }
  }

  lemma HereWhole(a: string, s: string, b: string)
    ensures Here(a + (s + b), |a|, s)
  {
    assert (a + (s + b))[|a|..|a| + |s|] == s;
  }

  /** The brace the extractor looks for from `$it` on is the one that ends the header. */
  lemma FirstBrace(pre: string, b: TestBlock, after: string)
    requires WellFormed(b) && '{' !in b.name
    ensures Find(pre + (Head(b) + ("{" + after)), "{", |pre| + 3) == |pre| + |Head(b)|
  {
    hide *;
    var text := pre + (Head(b) + ("{" + after));
    HeadHasNoBrace(b);
    HereWhole(pre, Head(b), "{" + after);
    NoBraceIn(text, |pre|, Head(b));
    HeadIsLong(b);
    FindTo(text, '{', |pre| + 3, |pre| + |Head(b)|);
  }

  lemma HeadIsLong(b: TestBlock)
    ensures |Head(b)| > 3
  {
  }

  lemma HeadHasNoBrace(b: TestBlock)
    requires WellFormed(b) && '{' !in b.name
    ensures forall c <- Head(b) :: c != '{'
  {
    WellFormedParts(b);
    hide WellFormed;
    SpacesHaveNoBrace(b.spaces, b.parens);
    hide Opening, Middle, Ending, SpacesOk;
  }

  lemma SpacesHaveNoBrace(sp: Spaces, parens: bool)
    requires SpacesOk(sp)
    ensures forall c <- Opening(sp) :: c != '{'
    ensures forall c <- Middle(sp) :: c != '{'
    ensures forall c <- Ending(sp, parens) :: c != '{'
  {
    forall s: string, c | White(s) && c in s ensures c != '{' {
    }
    hide White;
  }

  /** The brace matcher finds the end of a printed body. */
  lemma BodyEnds(text: string, open: nat, body: string)
    requires Here(text, open, "{" + body + "}") && Closed(body)
    ensures Scan(text, open, Code, 0) == open + |body| + 1
  {
    var inner := "{" + body + "}";
    assert text == text[..open] + text[open..];
    assert text[open..][..|body| + 2] == inner;
    ScanIsLocal(inner, text[open..], 0, Code, 0);
    ScanShift(text[..open], text[open..], 0, Code, 0);
  }

  lemma SkipWhite(text: string, i: nat, space: string, after: string)
    requires White(space) && i + |space| + |after| == |text| && text[i..] == space + after
    requires after != "" ==> !IsSpace(after[0])
    ensures Skip(text, i, IsSpace) == i + |space| && text[i + |space|..] == after
  {
    forall k | i <= k < i + |space| ensures IsSpace(text[k]) {
      assert text[k] == text[i..][k - i];
    }
    assert after != "" ==> text[i + |space|] == text[i..][|space|];
    SkipTo(text, i, i + |space|, IsSpace);
    assert text[i + |space|..] == text[i..][|space|..];
  }

  lemma MarkThen(text: string, i: nat, space: string, c: char, after: string)
    requires i <= |text| && text[i..] == space + ([c] + after) && White(space) && !IsSpace(c)
    ensures Token(text, i, [c]) == i + |space| + 1 <= |text| && text[i + |space| + 1..] == after
  {
    hide Token, White, IsSpace;
    HereAfter(text, i, space + [c], after);
    MarkAt(text, i, space, c);
  }

  lemma HereAfter(text: string, i: nat, s: string, after: string)
    requires i <= |text| && text[i..] == s + after
    ensures Here(text, i, s) && i + |s| <= |text| && text[i + |s|..] == after
  {
    assert text[i..][..|s|] == s && text[i..][|s|..] == after;
    assert text[i..i + |s|] == text[i..][..|s|];
    assert text[i + |s|..] == text[i..][|s|..];
  }

  lemma CloseOut(rest: string, close: int, semi: int, end: nat)
    requires Token(rest, 0, ")") == close >= 0 && Token(rest, close, ";") == semi
    requires Skip(rest, if semi < 0 then Skip(rest, close, IsSpace) else semi, IsSpace) == end
    ensures AfterClose(rest) == rest[end..]
  {
    hide Token, Skip;
  }

  /** The parenthesis, the semicolon if there is one and the white space around them go away. */
  lemma CloseSkipped(sp: Spaces, rest: string)
    requires SpacesOk(sp) && Follows(rest)
    ensures AfterClose(Close(sp) + rest) == rest
  {
    Marks();
    CloseAgain(sp, rest);
    SpacesOfClose(sp);
    hide Close, SpacesOk, Token, Skip, AfterClose, IsSpace, White, Here;
    var text, close := Close(sp) + rest, |sp.close| + 1;
    assert text[0..] == text;
    if sp.semi {
      MarkThen(text, 0, sp.close, ')', sp.beforeSemi + ([';'] + (sp.gap + rest)));
      MarkThen(text, close, sp.beforeSemi, ';', sp.gap + rest);
      AfterGap(text, close, close + |sp.beforeSemi| + 1, sp.gap, rest);
    } else {
      MarkThen(text, 0, sp.close, ')', sp.gap + rest);
      NoSemi(text, close, sp.gap, rest);
      AfterGap(text, close, -1, sp.gap, rest);
    }
  }

  lemma AfterGap(text: string, close: nat, semi: int, gap: string, rest: string)
    requires Token(text, 0, ")") == close <= |text| && Token(text, close, ";") == semi && White(gap) && Follows(rest)
    requires text[if semi < 0 then close else semi..] == gap + rest
    ensures AfterClose(text) == rest
  {
    var from := if semi < 0 then close else semi;
    SkipWhite(text, from, gap, rest);
    SkipWhite(text, from + |gap|, "", rest);
    CloseOut(text, close, semi, from + |gap|);
  }

  lemma NoSemi(text: string, close: nat, gap: string, rest: string)
    requires close <= |text| && text[close..] == gap + rest && White(gap) && Follows(rest)
    ensures Token(text, close, ";") == -1
  {
    SkipWhite(text, close, gap, rest);
    var k := close + |gap|;
    if rest != "" {
      assert text[k] == text[k..][0];
      if Here(text, k, ";") {
        HereChar(text, k, ";", 0);
      }
    }
  }

  lemma SpacesOfClose(sp: Spaces)
    requires SpacesOk(sp)
    ensures White(sp.close) && White(sp.beforeSemi) && White(sp.gap)
  {
  }

  lemma CloseAgain(sp: Spaces, rest: string)
    ensures sp.semi ==> Close(sp) + rest == sp.close + ([')'] + (sp.beforeSemi + ([';'] + (sp.gap + rest))))
    ensures !sp.semi ==> Close(sp) + rest == sp.close + ([')'] + (sp.gap + rest))
  {
  }

  /** A match of b at the same place in a text with k characters before it. */
  function Shifted(m: Match, k: nat): Match {
    if m == NoMatch then NoMatch else Header(m.start + k, m.nameFrom + k, m.nameTo + k, m.end + k)
  }

  function Moved(i: int, k: nat): int { if i < 0 then -1 else i + k }

  lemma {:induction false} SkipShift(a: string, b: string, i: nat, p: char -> bool)
    ensures Skip(a + b, |a| + i, p) == |a| + Skip(b, i, p)
    decreases |b| - i
  {
    if i < |b| {
      SkipShift(a, b, i + 1, p);
    }
  }

  lemma HereShift(a: string, b: string, i: nat, token: string)
    ensures Here(a + b, |a| + i, token) == Here(b, i, token)
  {
    if i + |token| <= |b| {
      assert (a + b)[|a| + i..|a| + i + |token|] == b[i..i + |token|];
    }
  }

  lemma TokenShift(a: string, b: string, i: int, token: string)
    requires i >= -1
    ensures Token(a + b, Moved(i, |a|), token) == Moved(Token(b, i, token), |a|)
  {
    hide Here, Skip;
    if i >= 0 {
      SkipShift(a, b, i, IsSpace);
      HereShift(a, b, Skip(b, i, IsSpace), token);
    }
  }

  lemma MatchAtShift(a: string, b: string, i: nat, parens: bool)
    ensures MatchAt(a + b, |a| + i, parens) == Shifted(MatchAt(b, i, parens), |a|)
  {
    hide Token, Here, MatchName;
    HereShift(a, b, i, "$it");
    var open := Token(b, i + 3, "(");
    TokenShift(a, b, i + 3, "(");
    TokenShift(a, b, open, "\"");
    if Token(b, open, "\"") >= 0 {
      MatchNameShift(a, b, i, Token(b, open, "\""), parens);
    }
  }

  lemma MatchNameShift(a: string, b: string, i: nat, quote: nat, parens: bool)
    ensures MatchName(a + b, |a| + i, |a| + quote, parens) == Shifted(MatchName(b, i, quote, parens), |a|)
  {
    hide Token, Here, Skip, EndFrom;
    SkipShift(a, b, quote, NotQuote);
    var nameTo := Skip(b, quote, NotQuote);
    var comma := Token(b, nameTo + 1, ",");
    TokenShift(a, b, nameTo + 1, ",");
    TokenShift(a, b, comma, "[");
    var bracket := Token(b, comma, "[");
    if bracket >= 0 {
      SkipShift(a, b, bracket, IsCapture);
      EndShift(a, b, Skip(b, bracket, IsCapture), parens);
    }
  }

  lemma EndShift(a: string, b: string, captured: nat, parens: bool)
    ensures Here(a + b, |a| + captured, "]") == Here(b, captured, "]")
    ensures EndFrom(a + b, |a| + captured, parens) == Moved(EndFrom(b, captured, parens), |a|)
  {
    hide Token, Here;
    HereShift(a, b, captured, "]");
    if parens {
      TokenShift(a, b, captured + 1, "(");
      TokenShift(a, b, Token(b, captured + 1, "("), ")");
      TokenShift(a, b, Token(b, Token(b, captured + 1, "("), ")"), "{");
    } else {
      TokenShift(a, b, captured + 1, "{");
    }
  }

  lemma {:induction false} SearchShift(a: string, b: string, i: nat, parens: bool)
    ensures Search(a + b, |a| + i, parens) == Shifted(Search(b, i, parens), |a|)
    decreases |b| - i
  {
    hide MatchAt;
    if i <= |b| {
      MatchAtShift(a, b, i, parens);
      SearchShift(a, b, i + 1, parens);
    }
  }

  /** No header begins in a, where b follows it. */
  predicate Silent(a: string, b: string, parens: bool) {
    forall i :: 0 <= i < |a| ==> MatchAt(a + b, i, parens) == NoMatch
  }

  lemma {:induction false} SearchOver(text: string, i: nat, j: nat, parens: bool)
    requires i <= j <= |text| && forall k :: i <= k < j ==> MatchAt(text, k, parens) == NoMatch
    ensures Search(text, i, parens) == Search(text, j, parens)
    decreases j - i
  {
    hide MatchAt;
    if i < j {
      SearchOver(text, i + 1, j, parens);
    }
  }

  lemma SearchPast(a: string, b: string, parens: bool)
    requires Silent(a, b, parens)
    ensures Search(a + b, 0, parens) == Shifted(Search(b, 0, parens), |a|)
  {
    hide MatchAt, Search;
    SearchOver(a + b, 0, |a|, parens);
    SearchShift(a, b, 0, parens);
  }

  lemma {:induction false} SearchNone(text: string, i: nat, parens: bool)
    ensures Search(text, i, parens) == NoMatch <==> forall k :: i <= k <= |text| ==> MatchAt(text, k, parens) == NoMatch
    decreases |text| - i
  {
    hide MatchAt;
    if i <= |text| {
      SearchNone(text, i + 1, parens);
    }
  }

  /** A text without a header has none in any part at its end. */
  lemma SearchSuffix(a: string, b: string, parens: bool)
    requires Search(a + b, 0, parens) == NoMatch
    ensures Search(b, 0, parens) == NoMatch
  {
    hide Search, MatchAt;
    SearchNone(a + b, 0, parens);
    SearchNone(b, 0, parens);
    forall k | 0 <= k <= |b| ensures MatchAt(b, k, parens) == NoMatch {
      MatchAtShift(a, b, k, parens);
      assert MatchAt(a + b, |a| + k, parens) == NoMatch;
    }
  }

  lemma {:induction false} FindShift(a: string, b: string, sub: string, i: nat)
    ensures Find(a + b, sub, |a| + i) == Moved(Find(b, sub, i), |a|)
    decreases |b| - i
  {
    if i + |sub| <= |b| {
      assert (a + b)[|a| + i..|a| + i + |sub|] == b[i..i + |sub|];
      FindShift(a, b, sub, i + 1);
    }
  }

  lemma OneFrom(text: string, m: Match, open: nat, close: nat)
    requires m == SearchEither(text) && m.Header? && m.nameFrom <= m.nameTo <= |text|
    requires open == Find(text, "{", m.start + 3) && close == Scan(text, open, Code, 0) && open < close < |text|
    ensures ExtractOne(text) == Found(text[m.nameFrom..m.nameTo], text[open + 1..close], AfterClose(text[close + 1..]))
  {
    hide MatchAt, Search, SearchEither, Find, Scan, AfterClose;
  }

  lemma OneNothing(text: string, m: Match)
    requires m == SearchEither(text)
    requires m == NoMatch || Find(text, "{", m.start + 3) < 0 || Scan(text, Find(text, "{", m.start + 3), Code, 0) < 0
    ensures ExtractOne(text) == Nothing
  {
    hide MatchAt, Search, SearchEither, Find, Scan, AfterClose;
  }

  /** Where the search finds its header past a, a is dropped. */
  lemma DroppedText(a: string, b: string)
    requires SearchEither(a + b) == Shifted(SearchEither(b), |a|)
    ensures ExtractOne(a + b) == ExtractOne(b)
  {
    hide Search, SearchEither, MatchAt, Find, Scan, AfterClose, ExtractOne, FromBrace;
    var m := SearchEither(b);
    if m == NoMatch {
      OneNothing(b, m);
      OneNothing(a + b, m);
      return;
    }
    EitherFinds(b);
    FindShift(a, b, "{", m.start + 3);
    var open := Find(b, "{", m.start + 3);
    if open < 0 {
      OneNothing(b, m);
      OneNothing(a + b, Shifted(m, |a|));
    } else {
      OneIs(b, m, open);
      OneIs(a + b, Shifted(m, |a|), |a| + open);
      FromBraceShift(a, b, m.nameFrom, m.nameTo, open);
    }
  }

  /** The block whose header is found and whose brace is at `open`. */
  function FromBrace(text: string, nameFrom: nat, nameTo: nat, open: nat): Extracted {
    var close := Scan(text, open, Code, 0);
    if open < close < |text| && nameFrom <= nameTo <= |text| then
      Found(text[nameFrom..nameTo], text[open + 1..close], AfterClose(text[close + 1..]))
    else Nothing
  }

  lemma OneIs(text: string, m: Match, open: nat)
    requires m == SearchEither(text) && m.Header? && m.nameFrom <= m.nameTo <= |text|
    requires open == Find(text, "{", m.start + 3)
    ensures ExtractOne(text) == FromBrace(text, m.nameFrom, m.nameTo, open)
  {
    hide Search, SearchEither, MatchAt, Find, Scan, AfterClose, ExtractOne;
    assert text[open] == text[open..open + 1][0];
    ScanFromOpen(text, open);
    var close := Scan(text, open, Code, 0);
    if close < 0 {
      OneNothing(text, m);
    } else {
      OneFrom(text, m, open, close);
    }
  }

  lemma FromBraceShift(a: string, b: string, nameFrom: nat, nameTo: nat, open: nat)
    requires nameFrom <= nameTo <= |b| && open < |b|
    ensures FromBrace(a + b, |a| + nameFrom, |a| + nameTo, |a| + open) == FromBrace(b, nameFrom, nameTo, open)
  {
    hide Scan, AfterClose;
    ScanShift(a, b, open, Code, 0);
    var close := Scan(b, open, Code, 0);
    if open < close < |b| {
      Slices(a, b, nameFrom, nameTo, open, close);
    }
  }

  lemma EitherFinds(text: string)
    ensures var m := SearchEither(text);
            m != NoMatch ==> m.nameFrom <= m.nameTo <= |text| && m.start <= |text|
  {
    hide Search;
    SearchFinds(text, 0, true);
    SearchFinds(text, 0, false);
  }

  /** Text before the first header with an empty argument list is dropped, whatever it holds: blocks without
      the list that stand before one with it are lost. */
  lemma DroppedBefore(a: string, b: string)
    requires Silent(a, b, true) && Search(b, 0, true) != NoMatch
    ensures ExtractOne(a + b) == ExtractOne(b)
  {
    SearchPast(a, b, true);
    hide Search, ExtractOne, Silent;
    DroppedText(a, b);
  }

  /** Without any header that has the list, text before the first header is dropped. */
  lemma DroppedBeforeBare(a: string, b: string)
    requires Silent(a, b, false) && Search(a + b, 0, true) == NoMatch
    ensures ExtractOne(a + b) == ExtractOne(b)
  {
    SearchSuffix(a, b, true);
    SearchPast(a, b, false);
    hide Search, ExtractOne, Silent;
    DroppedText(a, b);
  }

  lemma Slices(a: string, b: string, i: nat, j: nat, open: nat, close: nat)
    requires i <= j <= |b| && open < close < |b|
    ensures (a + b)[|a| + i..|a| + j] == b[i..j] && (a + b)[|a| + open + 1..|a| + close] == b[open + 1..close]
    ensures (a + b)[|a| + close + 1..] == b[close + 1..]
  {
  }

  /** A header of the other form is not looked for first. */
  predicate FirstForm(b: TestBlock, text: string) { !b.parens ==> Search(text, 0, true) == NoMatch }

  lemma SearchHere(text: string, parens: bool)
    requires MatchAt(text, 0, parens).Header? && (!parens ==> Search(text, 0, true) == NoMatch)
    ensures SearchEither(text) == MatchAt(text, 0, parens)
  {
    hide MatchAt;
  }

  /** The parts of a printed block in the text it begins. */
  lemma PrintedParts(b: TestBlock, rest: string)
    ensures Print(b) + rest == Head(b) + (("{" + b.body + "}") + (Close(b.spaces) + rest))
    ensures Print(b) + rest == Head(b) + ("{" + (b.body + "}" + (Close(b.spaces) + rest)))
    ensures Here(Print(b) + rest, 0, Head(b) + "{") && Here(Print(b) + rest, |Head(b)|, "{" + b.body + "}")
    ensures NameFrom(b) <= NameTo(b) <= |Print(b) + rest| && (Print(b) + rest)[NameFrom(b)..NameTo(b)] == b.name
  {
    var c := Close(b.spaces) + rest;
    hide Close, Opening, Middle, Ending, Here;
    Brackets(Head(b), b.body, c);
    HereWhole("", Head(b) + "{", b.body + "}" + c);
    HereWhole(Head(b), "{" + b.body + "}", c);
    NameThere(Opening(b.spaces), b.name, Middle(b.spaces) + (b.captures + Ending(b.spaces, b.parens)),
              ("{" + b.body + "}") + c);
    assert Print(b) + rest == Head(b) + (("{" + b.body + "}") + c);
  }

  lemma NameThere(o: string, n: string, m: string, after: string)
    ensures ((o + (n + m)) + after)[|o|..|o| + |n|] == n
  {
  }

  lemma Brackets(head: string, body: string, c: string)
    ensures head + (("{" + body + "}") + c) == head + ("{" + (body + "}" + c))
    ensures "" + ((head + "{") + (body + "}" + c)) == head + (("{" + body + "}") + c)
  {
  }

  lemma HeaderThere(b: TestBlock, rest: string)
    requires WellFormed(b) && FirstForm(b, Print(b) + rest)
    ensures SearchEither(Print(b) + rest) == Header(0, NameFrom(b), NameTo(b), |Head(b)| + 1)
  {
    hide MatchAt, Search, SearchEither, WellFormed, Print, Here, Head, NameFrom, NameTo;
    PrintedParts(b, rest);
    HeaderMatches(Print(b) + rest, b);
    SearchHere(Print(b) + rest, b.parens);
  }

  /** The header's name, and the body from the first brace after `$it` on. */
  lemma FoundFrom(b: TestBlock, rest: string, open: nat)
    requires WellFormed(b) && FirstForm(b, Print(b) + rest) && Find(Print(b) + rest, "{", 3) == open
    ensures var text, close := Print(b) + rest, Scan(Print(b) + rest, open, Code, 0);
            if close < 0 then ExtractOne(text) == Nothing
            else
              open < close < |text|
              && ExtractOne(text) == Found(b.name, text[open + 1..close], AfterClose(text[close + 1..]))
  {
    hide *;
    HeaderThere(b, rest);
    PrintedParts(b, rest);
    OneIs(Print(b) + rest, Header(0, NameFrom(b), NameTo(b), |Head(b)| + 1), open);
    FromBraceParts(Print(b) + rest, NameFrom(b), NameTo(b), open);
  }

  lemma FromBraceParts(text: string, nameFrom: nat, nameTo: nat, open: nat)
    requires nameFrom <= nameTo <= |text| && open < |text| && text[open..open + 1] == "{"
    ensures var close, e := Scan(text, open, Code, 0), FromBrace(text, nameFrom, nameTo, open);
            if close < 0 then e == Nothing
            else
              open < close < |text|
              && e == Found(text[nameFrom..nameTo], text[open + 1..close], AfterClose(text[close + 1..]))
  {
    hide Scan, AfterClose;
    assert text[open] == text[open..open + 1][0];
    ScanFromOpen(text, open);
  }

  /** Without a brace in the name the first brace is the header's. */
  lemma FirstIsHeaders(b: TestBlock, rest: string)
    requires WellFormed(b) && '{' !in b.name
    ensures Find(Print(b) + rest, "{", 3) == |Head(b)|
  {
    hide *;
    PrintedParts(b, rest);
    FirstBrace("", b, b.body + "}" + (Close(b.spaces) + rest));
    assert "" + (Print(b) + rest) == Print(b) + rest;
  }

  /** One printed block gives its name, its body and the text after it. For a block without the empty
      argument list no header that has it may stand anywhere in the text. */
  lemma ExtractsPrinted(b: TestBlock, rest: string)
    requires Printable(b) && Follows(rest) && FirstForm(b, Print(b) + rest)
    ensures ExtractOne(Print(b) + rest) == Found(b.name, b.body, rest)
  {
    PrintableIs(b);
    hide *;
    FirstIsHeaders(b, rest);
    FoundFrom(b, rest, |Head(b)|);
    PrintedParts(b, rest);
    WellFormedParts(b);
    BodyEnds(Print(b) + rest, |Head(b)|, b.body);
    CloseSkipped(b.spaces, rest);
    BodyThere(Head(b), b.body, Close(b.spaces) + rest);
  }

  lemma PrintableIs(b: TestBlock)
    ensures Printable(b) <==> WellFormed(b) && '{' !in b.name && Closed(b.body)
  {
  }

  lemma BodyThere(head: string, body: string, c: string)
    ensures var text, n := head + (("{" + body + "}") + c), |head|;
            |text| == n + |body| + 2 + |c| && text[n + 1..n + |body| + 1] == body && text[n + |body| + 2..] == c
  {
  }

  lemma {:induction false} SkipPasses(text: string, i: nat, p: char -> bool)
    requires i <= |text|
    ensures forall k :: i <= k < Skip(text, i, p) ==> p(text[k])
    decreases |text| - i
  {
    if i < |text| && p(text[i]) {
      SkipPasses(text, i + 1, p);
    }
  }

  lemma TokenPasses(text: string, i: int, c: char)
    requires -1 <= i <= |text| && c != '}'
    ensures forall k :: 0 <= i <= k < Token(text, i, [c]) ==> text[k] != '}'
  {
    if i >= 0 {
      SkipPasses(text, i, IsSpace);
      if Here(text, Skip(text, i, IsSpace), [c]) {
        HereChar(text, Skip(text, i, IsSpace), [c], 0);
      }
    }
  }

  /** No closing brace is skipped after a block. */
  lemma AfterCloseKeeps(u: string)
    ensures |AfterClose(u)| <= |u| && forall k :: 0 <= k < |u| - |AfterClose(u)| ==> u[k] != '}'
  {
    var close := Token(u, 0, ")");
    TokenPasses(u, 0, ')');
    if close >= 0 {
      TokenPasses(u, close, ';');
      SkipPasses(u, close, IsSpace);
      var semi := Token(u, close, ";");
      hide Token;
      SkipPasses(u, if semi < 0 then Skip(u, close, IsSpace) else semi, IsSpace);
    }
  }

  /** A printed block comes back exactly when its name has no brace and its last brace closes its body:
      the brace that is looked for from `$it` on may be one in the name. */
  lemma ExtractsPrintedIff(b: TestBlock, rest: string)
    requires WellFormed(b) && Follows(rest) && FirstForm(b, Print(b) + rest)
    ensures ExtractOne(Print(b) + rest) == Found(b.name, b.body, rest) <==> '{' !in b.name && Closed(b.body)
  {
    hide Search, WellFormed, Print, Follows, ExtractOne, FirstForm, Closed;
    if '{' in b.name {
      BraceInName(b, rest);
    } else if Closed(b.body) {
      ExtractsPrinted(b, rest);
    } else {
      BodyNotClosed(b, rest);
    }
  }

  lemma BodyNotClosed(b: TestBlock, rest: string)
    requires WellFormed(b) && FirstForm(b, Print(b) + rest) && '{' !in b.name && !Closed(b.body)
    ensures ExtractOne(Print(b) + rest) != Found(b.name, b.body, rest)
  {
    hide *;
    FirstIsHeaders(b, rest);
    FoundFrom(b, rest, |Head(b)|);
    PrintedParts(b, rest);
    if Scan(Print(b) + rest, |Head(b)|, Code, 0) == |Head(b)| + |b.body| + 1 {
      EndsClosed(Print(b) + rest, |Head(b)|, b.body);
    }
  }

  lemma EndsClosed(text: string, open: nat, body: string)
    requires Here(text, open, "{" + body + "}") && Scan(text, open, Code, 0) == open + |body| + 1
    ensures Closed(body)
  {
    var inner := "{" + body + "}";
    assert text == text[..open] + text[open..];
    assert text[open..][..|body| + 2] == inner;
    ScanShift(text[..open], text[open..], 0, Code, 0);
    ScanIsLocal(text[open..], inner, 0, Code, 0);
  }

  lemma BraceInName(b: TestBlock, rest: string)
    requires WellFormed(b) && FirstForm(b, Print(b) + rest) && '{' in b.name
    ensures ExtractOne(Print(b) + rest) != Found(b.name, b.body, rest)
  {
    hide *;
    FirstIsInName(b, rest);
    var open := Find(Print(b) + rest, "{", 3);
    FoundFrom(b, rest, open);
    PrintedParts(b, rest);
    if Scan(Print(b) + rest, open, Code, 0) >= 0 {
      NotThisBody(Head(b), b.body, Close(b.spaces), rest, open, Scan(Print(b) + rest, open, Code, 0));
    }
  }

  lemma FirstIsInName(b: TestBlock, rest: string)
    requires '{' in b.name
    ensures 3 <= Find(Print(b) + rest, "{", 3) < |Head(b)|
  {
    hide *;
    var text := Print(b) + rest;
    PrintedParts(b, rest);
    NameInHead(b);
    var k :| 0 <= k < |b.name| && b.name[k] == '{';
    assert text[NameFrom(b) + k] == text[NameFrom(b)..NameTo(b)][k];
    FindBy(text, '{', 3, NameFrom(b) + k);
  }

  /** A body of the same length that begins earlier ends before the real one, and its rest is longer. */
  lemma NotThisBody(head: string, body: string, c: string, rest: string, open: nat, close: int)
    requires var text := head + (("{" + body + "}") + (c + rest)); open < |head| && open < close < |text|
    ensures var text := head + (("{" + body + "}") + (c + rest));
            text[open + 1..close] != body || AfterClose(text[close + 1..]) != rest
  {
    hide *;
    var text, last := head + (("{" + body + "}") + (c + rest)), |head| + |body| + 1;
    BraceThere(head, body, c + rest);
    if |text[open + 1..close]| == |body| {
      var u := text[close + 1..];
      AfterCloseKeeps(u);
      assert u[last - close - 1] == '}';
    }
  }

  lemma {:induction false} FindBy(text: string, c: char, i: nat, j: nat)
    requires i <= j < |text| && text[j] == c
    ensures i <= Find(text, [c], i) <= j
    decreases j - i
  {
    assert text[i..i + 1] == [text[i]];
    if i < j && text[i] != c {
      FindBy(text, c, i + 1, j);
    }
  }

  lemma NameInHead(b: TestBlock)
    ensures 3 <= NameFrom(b) && NameTo(b) == NameFrom(b) + |b.name| && NameTo(b) < |Head(b)|
  {
    hide Ending;
  }

  lemma BraceThere(head: string, body: string, c: string)
    ensures var text := head + (("{" + body + "}") + c); text[|head| + |body| + 1] == '}'
  {
  }

  /** Names and bodies, in order. */
  function Pairs(blocks: seq<TestBlock>): (r: seq<(string, string)>)
    ensures |r| == |blocks|
  {
    if blocks == [] then [] else [(blocks[0].name, blocks[0].body)] + Pairs(blocks[1..])
  }

  lemma PrintAllStep(blocks: seq<TestBlock>, tail: string)
    requires blocks != []
    ensures PrintAll(blocks) + tail == Print(blocks[0]) + (PrintAll(blocks[1..]) + tail)
  {
    hide Print;
    JoinThree(Print(blocks[0]), PrintAll(blocks[1..]), tail);
  }

  lemma JoinThree(a: string, b: string, c: string)
    ensures (a + b) + c == a + (b + c)
  {
  }

  function Least(a: nat, b: nat): nat { if a < b then a else b }

  lemma PairsStep(blocks: seq<TestBlock>, limit: nat)
    requires blocks != [] && limit > 0
    ensures Pairs(blocks)[..Least(|blocks|, limit)] ==
            [(blocks[0].name, blocks[0].body)] + Pairs(blocks[1..])[..Least(|blocks[1..]|, limit - 1)]
  {
  }

  lemma PairsNone(blocks: seq<TestBlock>, limit: nat)
    requires blocks == [] || limit == 0
    ensures Pairs(blocks)[..Least(|blocks|, limit)] == []
  {
  }

  predicate AllPrintable(blocks: seq<TestBlock>) { forall b <- blocks :: Printable(b) }

  lemma HeadFollows(blocks: seq<TestBlock>, tail: string)
    requires Follows(tail)
    ensures Follows(PrintAll(blocks) + tail)
  {
    if blocks != [] {
      PrintAllStep(blocks, tail);
      PrintBegins(blocks[0]);
    } else {
      assert PrintAll(blocks) + tail == tail;
    }
  }

  lemma PrintBegins(b: TestBlock)
    ensures |Print(b)| > 0 && Print(b)[0] == '$' && !IsSpace('$')
  {
    hide Close, Middle, Ending;
  }

  /** Extraction undoes printing: blocks that all have the empty argument list, or all lack it where no
      header with it occurs in the text, come back in their order, as many as the limit allows. */
  lemma {:induction false} ExtractUndoesPrint(blocks: seq<TestBlock>, parens: bool, tail: string, limit: nat)
    requires AllPrintable(blocks) && (forall b <- blocks :: b.parens == parens) && NoBlocks(tail)
    requires !parens ==> Search(PrintAll(blocks) + tail, 0, true) == NoMatch
    ensures Extract(PrintAll(blocks) + tail, limit) == Pairs(blocks)[..Least(|blocks|, limit)]
  {
    hide Search, SearchEither, ExtractOne, Printable, Print, Follows, PrintAll, Extract;
    if limit == 0 {
      ExtractNone(PrintAll(blocks) + tail, 0);
      PairsNone(blocks, limit);
    } else if blocks == [] {
      PairsNone(blocks, limit);
      NothingPrinted(tail);
      NoneInTail(tail, limit);
    } else {
      var b, more := blocks[0], blocks[1..];
      PrintAllStep(blocks, tail);
      HeadFollows(more, tail);
      if !parens {
        SearchSuffix(Print(b), PrintAll(more) + tail, true);
      }
      ExtractsPrinted(b, PrintAll(more) + tail);
      ExtractUndoesPrint(more, parens, tail, limit - 1);
      ExtractFound(PrintAll(blocks) + tail, limit, b.name, b.body, PrintAll(more) + tail);
      PairsStep(blocks, limit);
    }
  }

  lemma NothingPrinted(tail: string)
    ensures PrintAll([]) + tail == tail
  {
  }

  lemma NoneInTail(tail: string, limit: nat)
    requires NoBlocks(tail)
    ensures Extract(tail, limit) == []
  {
    hide Search, SearchEither, Follows;
    OneNothing(tail, NoMatch);
    ExtractNone(tail, limit);
  }

  /** The dollar sign of the header is the only one. */
  predicate Quiet(b: TestBlock) { forall i :: 1 <= i < |Print(b)| ==> Print(b)[i] != '$' }

  lemma NoMatchFrom(text: string, n0: nat, n1: nat, n2: nat, n3: nat)
    requires n0 < n1 < |text| && Here(text, 0, "$it") && Token(text, Token(text, 3, "("), "\"") == n0
    requires Skip(text, n0, NotQuote) == n1 && Token(text, Token(text, n1 + 1, ","), "[") == n2
    requires Skip(text, n2, IsCapture) == n3 && Here(text, n3, "]") && Token(text, n3 + 1, "(") == -1
    ensures MatchAt(text, 0, true) == NoMatch
  {
    hide Here, Skip;
  }

  lemma MarkMissing(text: string, i: nat, space: string, c: char, other: char)
    requires Here(text, i, space + [c]) && White(space) && !IsSpace(c) && c != other
    ensures Token(text, i, [other]) == -1
  {
    HereSplit(text, i, space, [c]);
    HereChar(text, i + |space|, [c], 0);
    SkipOver(text, i, space, IsSpace);
    assert text[i + |space|..i + |space| + 1] == [c];
  }

  /** A header without the empty argument list is not taken for one with it. */
  lemma BareHeaderNoMatch(text: string, b: TestBlock)
    requires Here(text, 0, Head(b) + "{") && WellFormed(b) && !b.parens
    ensures MatchAt(text, 0, true) == NoMatch
  {
    var k := CapturesTo(b);
    hide *;
    HeadParts(text, b);
    WellFormedParts(b);
    Marks();
    OpeningMatches(text, b.spaces);
    MiddleMatches(text, NameTo(b), b.spaces);
    EndingParts(text, k, b.spaces, false);
    WhiteBrace(b.spaces);
    MarkMissing(text, k + 1, b.spaces.brace, '{', '(');
    Places(b);
    HereChar(text, NameTo(b), "\"", 0);
    HereChar(text, k, "]", 0);
    SkipOver(text, NameFrom(b), b.name, NotQuote);
    SkipOver(text, CapturesFrom(b), b.captures, IsCapture);
    NoMatchFrom(text, NameFrom(b), NameTo(b), CapturesFrom(b), k);
  }

  lemma WhiteBrace(sp: Spaces)
    requires SpacesOk(sp)
    ensures White(sp.brace)
  {
  }

  lemma NoHeaderWithoutDollar(text: string, i: nat, parens: bool)
    requires i < |text| && text[i] != '$'
    ensures MatchAt(text, i, parens) == NoMatch
  {
    hide Token, Skip;
    if Here(text, i, "$it") {
      HereChar(text, i, "$it", 0);
    }
  }

  lemma SilentBlock(b: TestBlock, rest: string)
    requires WellFormed(b) && !b.parens && Quiet(b)
    ensures Silent(Print(b), rest, true)
  {
    PrintedParts(b, rest);
    hide MatchAt, WellFormed, Print, Here, Head;
    BareHeaderNoMatch(Print(b) + rest, b);
    forall i | 0 <= i < |Print(b)| ensures MatchAt(Print(b) + rest, i, true) == NoMatch {
      if i > 0 {
        NoHeaderWithoutDollar(Print(b) + rest, i, true);
      }
    }
  }

  predicate AllQuiet(blocks: seq<TestBlock>) { forall b <- blocks :: Quiet(b) }

  predicate SomeParens(blocks: seq<TestBlock>) { exists b <- blocks :: b.parens }

  lemma FirstAndMore(blocks: seq<TestBlock>)
    requires blocks != []
    ensures AllPrintable(blocks) ==> Printable(blocks[0]) && WellFormed(blocks[0]) && AllPrintable(blocks[1..])
    ensures AllQuiet(blocks) ==> Quiet(blocks[0]) && AllQuiet(blocks[1..])
    ensures SomeParens(blocks) <==> blocks[0].parens || SomeParens(blocks[1..])
  {
    hide WellFormed, Quiet, Closed;
    assert blocks[0] in blocks && blocks == [blocks[0]] + blocks[1..];
  }

  lemma {:induction false} SearchTells(blocks: seq<TestBlock>, tail: string)
    requires AllPrintable(blocks) && AllQuiet(blocks) && Search(tail, 0, true) == NoMatch
    ensures Search(PrintAll(blocks) + tail, 0, true) != NoMatch <==> SomeParens(blocks)
  {
    hide Search, Print, Printable, WellFormed, AllPrintable, AllQuiet, Quiet, PrintAll, MatchAt;
    if blocks == [] {
      NothingPrinted(tail);
    } else {
      var b, after := blocks[0], PrintAll(blocks[1..]) + tail;
      PrintAllStep(blocks, tail);
      FirstAndMore(blocks);
      if b.parens {
        HeaderSeen(b, after);
      } else {
        SilentBlock(b, after);
        SearchPast(Print(b), after, true);
        SearchTells(blocks[1..], tail);
      }
    }
  }

  lemma HeaderSeen(b: TestBlock, rest: string)
    requires WellFormed(b) && b.parens
    ensures Search(Print(b) + rest, 0, true) != NoMatch
  {
    hide MatchAt, WellFormed, Print, Here, Head, NameFrom, NameTo;
    PrintedParts(b, rest);
    HeaderMatches(Print(b) + rest, b);
  }

  /** The blocks that come back: those with the empty argument list, and those without it that no block
      with it follows. */
  function Kept(blocks: seq<TestBlock>): seq<TestBlock> {
    if blocks == [] then []
    else if blocks[0].parens || !SomeParens(blocks) then [blocks[0]] + Kept(blocks[1..])
    else Kept(blocks[1..])
  }

  lemma ExtractAlike(a: string, b: string, limit: nat)
    requires ExtractOne(a) == ExtractOne(b)
    ensures Extract(a, limit) == Extract(b, limit)
  {
    hide ExtractOne;
  }

  /** Where both forms occur the blocks kept come back in their order, and no others. */
  lemma {:induction false} MixedBlocks(blocks: seq<TestBlock>, tail: string, limit: nat)
    requires AllPrintable(blocks) && AllQuiet(blocks) && NoBlocks(tail)
    ensures Extract(PrintAll(blocks) + tail, limit) == Pairs(Kept(blocks))[..Least(|Kept(blocks)|, limit)]
    decreases blocks
  {
    hide *;
    if limit == 0 || blocks == [] {
      MixedNone(blocks, tail, limit);
    } else {
      var more := blocks[1..];
      FirstAndMore(blocks);
      TailNone(tail);
      SearchTells(blocks, tail);
      SearchTells(more, tail);
      KeptStep(blocks);
      if blocks[0].parens || !SomeParens(blocks) {
        MixedFirst(blocks, tail);
        MixedBlocks(more, tail, limit - 1);
        ExtractFound(PrintAll(blocks) + tail, limit, blocks[0].name, blocks[0].body, PrintAll(more) + tail);
        PairsAfter(blocks[0], Kept(more), limit);
      } else {
        MixedDropped(blocks, tail);
        MixedBlocks(more, tail, limit);
        ExtractAlike(PrintAll(blocks) + tail, PrintAll(more) + tail, limit);
      }
    }
  }

  lemma MixedNone(blocks: seq<TestBlock>, tail: string, limit: nat)
    requires NoBlocks(tail) && (limit == 0 || blocks == [])
    ensures Extract(PrintAll(blocks) + tail, limit) == Pairs(Kept(blocks))[..Least(|Kept(blocks)|, limit)]
  {
    hide Extract, NoBlocks, PrintAll;
    PairsNone(Kept(blocks), limit);
    if limit == 0 {
      ExtractNone(PrintAll(blocks) + tail, 0);
    } else {
      NothingPrinted(tail);
      NoneInTail(tail, limit);
    }
  }

  lemma KeptStep(blocks: seq<TestBlock>)
    requires blocks != []
    ensures Kept(blocks) ==
            if blocks[0].parens || !SomeParens(blocks) then [blocks[0]] + Kept(blocks[1..]) else Kept(blocks[1..])
  {
  }

  lemma PairsAfter(b: TestBlock, more: seq<TestBlock>, limit: nat)
    requires limit > 0
    ensures Pairs([b] + more)[..Least(|[b] + more|, limit)] ==
            [(b.name, b.body)] + Pairs(more)[..Least(|more|, limit - 1)]
  {
    hide Pairs;
    PairsStep([b] + more, limit);
    assert ([b] + more)[1..] == more;
  }

  lemma TailNone(tail: string)
    requires NoBlocks(tail)
    ensures Search(tail, 0, true) == NoMatch && Follows(tail)
  {
    hide Search;
  }

  lemma MixedFirst(blocks: seq<TestBlock>, tail: string)
    requires blocks != [] && AllPrintable(blocks) && Follows(tail)
    requires blocks[0].parens || Search(PrintAll(blocks) + tail, 0, true) == NoMatch
    ensures ExtractOne(PrintAll(blocks) + tail) ==
            Found(blocks[0].name, blocks[0].body, PrintAll(blocks[1..]) + tail)
  {
    hide Search, ExtractOne, Printable, Print, Follows, PrintAll;
    PrintAllStep(blocks, tail);
    HeadFollows(blocks[1..], tail);
    ExtractsPrinted(blocks[0], PrintAll(blocks[1..]) + tail);
  }

  lemma MixedDropped(blocks: seq<TestBlock>, tail: string)
    requires blocks != [] && AllPrintable(blocks) && AllQuiet(blocks) && !blocks[0].parens
    requires Search(PrintAll(blocks[1..]) + tail, 0, true) != NoMatch
    ensures ExtractOne(PrintAll(blocks) + tail) == ExtractOne(PrintAll(blocks[1..]) + tail)
  {
    hide Search, ExtractOne, WellFormed, Print, PrintAll, Quiet;
    FirstAndMore(blocks);
    PrintAllStep(blocks, tail);
    SilentBlock(blocks[0], PrintAll(blocks[1..]) + tail);
    DroppedBefore(Print(blocks[0]), PrintAll(blocks[1..]) + tail);
  }

  lemma {:induction false} KeptAll(blocks: seq<TestBlock>)
    ensures |Kept(blocks)| <= |blocks|
    ensures |Kept(blocks)| == |blocks| <==>
            forall i, j :: 0 <= i < j < |blocks| && blocks[j].parens ==> blocks[i].parens
    ensures |Kept(blocks)| == |blocks| ==> Kept(blocks) == blocks
  {
    if blocks != [] {
      var more := blocks[1..];
      KeptAll(more);
      if blocks[0].parens || !SomeParens(blocks) {
        assert forall j :: 1 <= j < |blocks| ==> blocks[j] == more[j - 1];
        assert forall i :: 0 <= i < |more| ==> more[i] == blocks[i + 1];
      } else {
        var b :| b in blocks && b.parens;
        var j :| 0 <= j < |blocks| && blocks[j] == b;
        assert 0 < j && !blocks[0].parens && blocks[j].parens;
      }
    }
  }

  /** All printed blocks come back exactly when none without the empty argument list stands before one
      that has it. */
  lemma AllComeBackIff(blocks: seq<TestBlock>, tail: string, limit: nat)
    requires AllPrintable(blocks) && AllQuiet(blocks) && NoBlocks(tail) && |blocks| <= limit
    ensures Extract(PrintAll(blocks) + tail, limit) == Pairs(blocks) <==>
            forall i, j :: 0 <= i < j < |blocks| && blocks[j].parens ==> blocks[i].parens
  {
    MixedBlocks(blocks, tail, limit);
    KeptAll(blocks);
    hide *;
    CountDecides(blocks, Kept(blocks), limit);
  }

  lemma CountDecides(blocks: seq<TestBlock>, kept: seq<TestBlock>, limit: nat)
    requires |kept| <= |blocks| <= limit && (|kept| == |blocks| ==> kept == blocks)
    ensures Pairs(kept)[..Least(|kept|, limit)] == Pairs(blocks) <==> |kept| == |blocks|
  {
    assert Pairs(kept)[..|kept|] == Pairs(kept);
    hide Pairs;
  }

  /** A body whose brace is never closed ends the extraction. */
  lemma NeverClosed(b: TestBlock, after: string, limit: nat)
    requires WellFormed(b) && '{' !in b.name && Scan("{" + after, 0, Code, 0) == -1
    requires FirstForm(b, Head(b) + ("{" + after))
    ensures Extract(Head(b) + ("{" + after), limit) == []
  {
    hide Search, SearchEither, MatchAt, WellFormed, Here, Head, Scan, Find, ExtractOne, Extract;
    var text := Head(b) + ("{" + after);
    HereWhole("", Head(b) + "{", after);
    assert "" + ((Head(b) + "{") + after) == text == "" + text;
    HeaderMatches(text, b);
    SearchHere(text, b.parens);
    FirstBrace("", b, after);
    ScanShift(Head(b), "{" + after, 0, Code, 0);
    OneNothing(text, Header(0, NameFrom(b), NameTo(b), |Head(b)| + 1));
    ExtractNone(text, limit);
  }

  /** Where no parenthesis follows the body nothing is skipped, not even white space. */
  lemma NothingSkipped(space: string, c: char, more: string)
    requires White(space) && !IsSpace(c) && c != ')'
    ensures AfterClose(space) == space && AfterClose(space + [c] + more) == space + [c] + more
  {
    Marks();
    SkipWhite(space, 0, space, "");
    HereWhole("", space + [c], more);
    assert "" + ((space + [c]) + more) == space + [c] + more;
    MarkMissing(space + [c] + more, 0, space, c, ')');
  }
}
