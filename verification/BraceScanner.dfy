/** The brace matcher of the test converter: it jumps over comments, and gives what a scanner gives
    that looks at one character after the other. */
module BraceScanner {

  /** Where the one-character scanner is: in code, right after a slash or a backslash in code, in a
      string (or after a backslash in it), or in a comment. */
  datatype State = Code | Slash | Escape | Text(quote: char) | TextEscape(quote: char) | Line | Block | Star

  function CodeStep(c: char): State {
    if c == '\\' then Escape
    else if c == '"' || c == '\'' then Text(c)
    else if c == '/' then Slash else Code
  }

  function Step(st: State, c: char): State {
    match st
    case Code => CodeStep(c)
    case Slash => if c == '/' then Line else if c == '*' then Block else CodeStep(c)
    case Escape => Code
    case Text(q) => if c == '\\' then TextEscape(q) else if c == q then Code else st
    case TextEscape(q) => Text(q)
    case Line => if c == '\n' then Code else Line
    case Block => if c == '*' then Star else Block
    case Star => if c == '/' then Code else if c == '*' then Star else Block
  }

  /** How a character changes the brace depth; braces count in code only. */
  function Change(st: State, c: char): int {
    if st != Code && st != Slash then 0 else if c == '{' then 1 else if c == '}' then -1 else 0
  }

  /** The first position from i on where a closing brace brings the depth to zero, or -1. */
  function Scan(text: string, i: nat, st: State, depth: int): int
    decreases |text| - i
  {
    if i >= |text| then -1
    else
      var d := depth + Change(st, text[i]);
      if Change(st, text[i]) < 0 && d == 0 then i else Scan(text, i + 1, Step(st, text[i]), d)
  }

  /** The scanner's state, and the depth, when it comes to position j. */
  function StateAt(text: string, i: nat, st: State, j: nat): State
    requires i <= j <= |text|
    decreases j - i
  {
    if i == j then st else StateAt(text, i + 1, Step(st, text[i]), j)
  }

  function DepthAt(text: string, i: nat, st: State, depth: int, j: nat): int
    requires i <= j <= |text|
    decreases j - i
  {
    if i == j then depth else DepthAt(text, i + 1, Step(st, text[i]), depth + Change(st, text[i]), j)
  }

  /** At position j a closing brace in code brings the depth to zero. */
  predicate ClosesAt(text: string, i: nat, st: State, depth: int, j: nat)
    requires i <= j < |text|
  {
    Change(StateAt(text, i, st, j), text[j]) < 0 && DepthAt(text, i, st, depth, j) == 1
  }

  /** The result is the first position where the depth returns to zero, and there is none exactly
      when it never does. */
  lemma {:induction false} ScanIsFirstClose(text: string, i: nat, st: State, depth: int)
    requires i <= |text|
    ensures var r := Scan(text, i, st, depth);
            if r == -1 then forall j | i <= j < |text| :: !ClosesAt(text, i, st, depth, j)
            else i <= r < |text| && ClosesAt(text, i, st, depth, r) &&
                 forall j | i <= j < r :: !ClosesAt(text, i, st, depth, j)
    decreases |text| - i
  {
    if i < |text| && !(Change(st, text[i]) < 0 && depth + Change(st, text[i]) == 0) {
      var st', d := Step(st, text[i]), depth + Change(st, text[i]);
      ScanIsFirstClose(text, i + 1, st', d);
      forall j | i < j < |text|
        ensures ClosesAt(text, i, st, depth, j) == ClosesAt(text, i + 1, st', d, j)
      {
      }
    }
  }

  /** The result does not depend on the text after it. */
  lemma {:induction false} ScanIsLocal(text: string, other: string, i: nat, st: State, depth: int)
    requires var r := Scan(text, i, st, depth);
             r >= 0 && r < |other| && r < |text| && other[..r + 1] == text[..r + 1]
    ensures Scan(other, i, st, depth) == Scan(text, i, st, depth)
    decreases |text| - i
  {
    var r := Scan(text, i, st, depth);
    ScanRange(text, i, st, depth);
    assert other[i] == other[..r + 1][i] == text[i];
    ScanRange(text, i + 1, Step(st, text[i]), depth + Change(st, text[i]));
    if r != i {
      ScanIsLocal(text, other, i + 1, Step(st, text[i]), depth + Change(st, text[i]));
    }
  }

  lemma {:induction false} ScanRange(text: string, i: nat, st: State, depth: int)
    ensures var r := Scan(text, i, st, depth); r == -1 || i <= r < |text|
    decreases |text| - i
  {
    if i < |text| {
      ScanRange(text, i + 1, Step(st, text[i]), depth + Change(st, text[i]));
    }
  }

  /** Text before the starting point only shifts the result. */
  lemma {:induction false} ScanShift(a: string, b: string, i: nat, st: State, depth: int)
    ensures Scan(a + b, |a| + i, st, depth) == var r := Scan(b, i, st, depth); if r == -1 then -1 else |a| + r
    decreases |b| - i
  {
    if i < |b| {
      assert (a + b)[|a| + i] == b[i];
      ScanShift(a, b, i + 1, Step(st, b[i]), depth + Change(st, b[i]));
      ScanRange(b, i + 1, Step(st, b[i]), depth + Change(st, b[i]));
    }
  }

  /** `text.find(sub, from)` */
  function Find(text: string, sub: string, from: nat): (r: int)
    ensures r == -1 || (from <= r <= |text| - |sub| && text[r..r + |sub|] == sub)
    decreases |text| - from
  {
    if from + |sub| > |text| then -1
    else if text[from..from + |sub|] == sub then from
    else Find(text, sub, from + 1)
  }

  /** A line comment ends with its line. */
  lemma {:induction false} LineSkips(text: string, i: nat, depth: int)
    ensures var nl := Find(text, "\n", i);
            Scan(text, i, Line, depth) == if nl == -1 then -1 else Scan(text, nl + 1, Code, depth)
    decreases |text| - i
  {
    if i < |text| {
      assert text[i..i + 1] == [text[i]];
      if text[i] != '\n' {
        LineSkips(text, i + 1, depth);
      }
    }
  }

  /** `*` and `/` at i, in the two characters there. */
  lemma Window(text: string, i: nat)
    ensures Find(text, "*/", i) ==
            if i + 2 > |text| then -1 else if text[i] == '*' && text[i + 1] == '/' then i else Find(text, "*/", i + 1)
  {
    if i + 2 <= |text| {
      assert text[i..i + 2] == [text[i], text[i + 1]];
      assert "*/" == ['*', '/'];
    }
  }

  lemma ScanOne(text: string, i: nat, st: State, depth: int)
    requires st == Block || st == Star
    ensures Scan(text, i, st, depth) == if i < |text| then Scan(text, i + 1, Step(st, text[i]), depth) else -1
  {
  }

  lemma CommentStep(c: char)
    ensures Step(Block, c) == if c == '*' then Star else Block
    ensures Step(Star, c) == if c == '/' then Code else if c == '*' then Star else Block
  {
  }

  /** A block comment ends with the first star and slash. */
  lemma {:induction false} BlockSkips(text: string, i: nat, depth: int)
    ensures var end := Find(text, "*/", i);
            Scan(text, i, Block, depth) == if end == -1 then -1 else Scan(text, end + 2, Code, depth)
    decreases |text| - i, 1
  {
    hide *;
    Window(text, i);
    ScanOne(text, i, Block, depth);
    if i < |text| {
      CommentStep(text[i]);
      if text[i] == '*' {
        StarSkips(text, i + 1, depth);
      } else {
        Window(text, i + 1);
        BlockSkips(text, i + 1, depth);
      }
    }
  }

  lemma {:induction false} StarSkips(text: string, i: nat, depth: int)
    requires 0 < i <= |text| && text[i - 1] == '*'
    ensures var end := Find(text, "*/", i - 1);
            Scan(text, i, Star, depth) == if end == -1 then -1 else Scan(text, end + 2, Code, depth)
    decreases |text| - i, 2
  {
    hide *;
    Window(text, i - 1);
    ScanOne(text, i, Star, depth);
    if i < |text| {
      CommentStep(text[i]);
      if text[i] == '*' {
        StarSkips(text, i + 1, depth);
      } else if text[i] != '/' {
        Window(text, i);
        Window(text, i + 1);
        BlockSkips(text, i + 1, depth);
      }
    }
  }

  /** The flags of the matcher, as a state of the one-character scanner. */
  function Flags(escaped: bool, inString: bool, quote: char): State {
    if inString then (if escaped then TextEscape(quote) else Text(quote))
    else if escaped then Escape else Code
  }

  /** What the scanner makes of the next character, by the matcher's flags. */
  lemma FlagStep(text: string, i: nat, escaped: bool, inString: bool, quote: char, depth: int)
    requires i < |text|
    ensures var c, here := text[i], Scan(text, i, Flags(escaped, inString, quote), depth);
            if escaped then here == Scan(text, i + 1, Flags(false, inString, quote), depth)
            else if c == '\\' then here == Scan(text, i + 1, Flags(true, inString, quote), depth)
            else if inString then here == Scan(text, i + 1, Flags(false, c != quote, quote), depth)
            else if c == '"' || c == '\'' then here == Scan(text, i + 1, Flags(false, true, c), depth)
            else if c == '{' then here == Scan(text, i + 1, Flags(false, false, quote), depth + 1)
            else if c == '}' then
              here == if depth == 1 then i else Scan(text, i + 1, Flags(false, false, quote), depth - 1)
            else if c == '/' then here == Scan(text, i, Code, depth)
            else here == Scan(text, i + 1, Flags(false, false, quote), depth)
  {
  }

  lemma InCode(quote: char)
    ensures Flags(false, false, quote) == Code
  {
  }

  lemma ScanOver(text: string, i: nat, st: State, depth: int)
    requires i >= |text|
    ensures Scan(text, i, st, depth) == -1
  {
  }

  /** Finds the closing brace for the opening brace at `start`, -1 if there is none. */
  method FindMatchingBrace(text: string, start: nat) returns (r: int)
    ensures r == Scan(text, start, Code, 0)
  {
    hide *;
    var depth, i, inString, quote, escaped := 0, start, false, ' ', false;
    InCode(quote);
    while i < |text|
      invariant Scan(text, start, Code, 0) == Scan(text, i, Flags(escaped, inString, quote), depth)
      invariant i >= start
      decreases |text| - i
    {
      var c := text[i];
      FlagStep(text, i, escaped, inString, quote, depth);
      if escaped {
        escaped := false;
        i := i + 1;
        continue;
      }
      if c == '\\' {
        escaped := true;
        i := i + 1;
        continue;
      }
      if inString {
        if c == quote {
          inString := false;
        }
        i := i + 1;
        continue;
      }
      if c == '"' || c == '\'' {
        inString := true;
        quote := c;
        i := i + 1;
        continue;
      }
      InCode(quote);
      if c == '/' && i + 1 < |text| && text[i + 1] == '/' {
        CommentStarts(text, i, depth);
        var nl := Find(text, "\n", i);
        if nl == -1 {
          return -1;
        }
        i := nl + 1;
        continue;
      }
      if c == '/' && i + 1 < |text| && text[i + 1] == '*' {
        CommentStarts(text, i, depth);
        var endComment := Find(text, "*/", i + 2);
        if endComment == -1 {
          return -1;
        }
        i := endComment + 2;
        continue;
      }
      if c == '/' {
        LoneSlash(text, i, depth);
      }
      if c == '{' {
        depth := depth + 1;
      } else if c == '}' {
        depth := depth - 1;
        if depth == 0 {
          return i;
        }
      }
      i := i + 1;
    }
    ScanOver(text, i, Flags(escaped, inString, quote), depth);
    return -1;
  }

  lemma CommentStarts(text: string, i: nat, depth: int)
    requires i + 1 < |text| && text[i] == '/' && (text[i + 1] == '/' || text[i + 1] == '*')
    ensures text[i + 1] == '/' ==>
              var nl := Find(text, "\n", i);
              Scan(text, i, Code, depth) == if nl == -1 then -1 else Scan(text, nl + 1, Code, depth)
    ensures text[i + 1] == '*' ==>
              var end := Find(text, "*/", i + 2);
              Scan(text, i, Code, depth) == if end == -1 then -1 else Scan(text, end + 2, Code, depth)
  {
    hide *;
    TwoSteps(text, i, depth);
    if text[i + 1] == '/' {
      LineSkips(text, i + 2, depth);
      SlashesAreNoNewline(text, i);
    } else {
      BlockSkips(text, i + 2, depth);
    }
  }

  lemma TwoSteps(text: string, i: nat, depth: int)
    requires i + 1 < |text| && text[i] == '/' && (text[i + 1] == '/' || text[i + 1] == '*')
    ensures Scan(text, i, Code, depth) == Scan(text, i + 2, if text[i + 1] == '/' then Line else Block, depth)
  {
    assert Scan(text, i, Code, depth) == Scan(text, i + 1, Slash, depth);
  }

  lemma SlashesAreNoNewline(text: string, i: nat)
    requires i + 1 < |text| && text[i] == text[i + 1] == '/'
    ensures Find(text, "\n", i) == Find(text, "\n", i + 2)
  {
    assert text[i..i + 1] == "/" && text[i + 1..i + 2] == "/";
    assert Find(text, "\n", i) == Find(text, "\n", i + 1);
  }

  lemma LoneSlash(text: string, i: nat, depth: int)
    requires i < |text| && text[i] == '/' && (i + 1 < |text| ==> text[i + 1] != '/' && text[i + 1] != '*')
    ensures Scan(text, i, Code, depth) == Scan(text, i + 1, Code, depth)
  {
  }

  /** From an opening brace on, the matching brace comes later. */
  lemma ScanFromOpen(text: string, open: nat)
    requires open < |text| && text[open] == '{'
    ensures var r := Scan(text, open, Code, 0); r == -1 || open < r < |text|
  {
    ScanRange(text, open + 1, Code, 1);
  }
}
