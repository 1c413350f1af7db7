/** The test converter's splitter of argument lists at top-level commas. */
module ArgSplitter {

  /** In plain text or a string, right after a backslash or not. */
  datatype Mode = Plain | Escape | Text(quote: char) | TextEscape(quote: char)

  datatype State = State(mode: Mode, paren: int, angle: int, brace: int)

  const START := State(Plain, 0, 0, 0)

  function Step(st: State, c: char): State {
    match st.mode
    case Escape => st.(mode := Plain)
    case TextEscape(q) => st.(mode := Text(q))
    case Text(q) => if c == '\\' then st.(mode := TextEscape(q)) else if c == q then st.(mode := Plain) else st
    case Plain =>
      if c == '\\' then st.(mode := Escape)
      else if c == '"' || c == '\'' then st.(mode := Text(c))
      else if c == '(' then st.(paren := st.paren + 1)
      else if c == ')' then st.(paren := st.paren - 1)
      else if c == '<' then st.(angle := st.angle + 1)
      else if c == '>' then st.(angle := st.angle - 1)
      else if c == '{' then st.(brace := st.brace + 1)
      else if c == '}' then st.(brace := st.brace - 1) else st
  }

  /** A comma here separates arguments. */
  predicate Separates(st: State, c: char) { c == ',' && st == START }

  function StateAfter(st: State, text: string): State
    decreases |text|
  {
    if text == "" then st else StateAfter(Step(st, text[0]), text[1..])
  }

  /** The arguments in `text`, read from state `st` on with `current` already read. */
  function Split(st: State, current: string, text: string): seq<string>
    decreases |text|
  {
    if text == "" then (if current != "" then [current] else [])
    else if Separates(st, text[0]) then [current] + Split(st, "", text[1..])
    else Split(Step(st, text[0]), current + [text[0]], text[1..])
  }

  function Arguments(text: string): seq<string> { Split(START, "", text) }

  method SplitTopLevelArgs(s: string) returns (args: seq<string>)
    ensures args == Arguments(s)
  {
    args := [];
    var paren, angle, brace := 0, 0, 0;
    var inString, quote, escaped := false, ' ', false;
    var current := "";
    for i := 0 to |s|
      invariant args + Split(Flags(inString, quote, escaped, paren, angle, brace), current, s[i..]) == Arguments(s)
    {
      var c := s[i];
      ghost var st := Flags(inString, quote, escaped, paren, angle, brace);
      assert s[i..][0] == c && s[i..][1..] == s[i + 1..];
      if escaped {
        current := current + [c];
        escaped := false;
        continue;
      }
      if c == '\\' {
        escaped := true;
        current := current + [c];
        continue;
      }
      if inString {
        current := current + [c];
        if c == quote {
          inString := false;
        }
        continue;
      }
      if c == '"' || c == '\'' {
        inString := true;
        quote := c;
        current := current + [c];
        continue;
      }
      if c == '(' {
        paren := paren + 1;
      } else if c == ')' {
        paren := paren - 1;
      } else if c == '<' {
        angle := angle + 1;
      } else if c == '>' {
        angle := angle - 1;
      } else if c == '{' {
        brace := brace + 1;
      } else if c == '}' {
        brace := brace - 1;
      }
      if c == ',' && paren == 0 && angle == 0 && brace == 0 {
        assert args + ([current] + Split(st, "", s[i + 1..])) == args + [current] + Split(st, "", s[i + 1..]);
        args := args + [current];
        current := "";
      } else {
        current := current + [c];
      }
    }
    if current != "" {
      args := args + [current];
    }
  }

  function Flags(inString: bool, quote: char, escaped: bool, paren: int, angle: int, brace: int): State {
    State(if inString then (if escaped then TextEscape(quote) else Text(quote)) else if escaped then Escape else Plain,
          paren, angle, brace)
  }

  /** The pieces with commas between them. */
  function Join(pieces: seq<string>): string {
    if pieces == [] then "" else if |pieces| == 1 then pieces[0] else pieces[0] + "," + Join(pieces[1..])
  }

  /** The text ends with a separating comma. */
  predicate EndsWithSeparator(st: State, text: string) {
    text != "" && Separates(StateAfter(st, text[..|text| - 1]), text[|text| - 1])
  }

  /** The piece holds no separating comma. */
  predicate Whole(st: State, text: string)
    decreases |text|
  {
    text == "" || (!Separates(st, text[0]) && Whole(Step(st, text[0]), text[1..]))
  }

  /** The scanner is back where it started after the piece. */
  predicate Closed(text: string) { StateAfter(START, text) == START }

  /** Splitting loses nothing but a separating comma at the very end. */
  lemma {:induction false} JoinUndoesSplit(st: State, current: string, text: string)
    ensures Join(Split(st, current, text)) ==
        current + (if EndsWithSeparator(st, text) then text[..|text| - 1] else text)
    decreases |text|
  {
    if text != "" {
      var c, rest := text[0], text[1..];
      LastOfRest(st, text);
      hide EndsWithSeparator, Step, Join;
      if Separates(st, c) {
        JoinUndoesSplit(st, "", rest);
        JoinFirst(current, Split(st, "", rest));
        SeparatorKeeps(st, c);
        if rest != "" {
          SplitNotEmpty(st, "", rest);
        }
      } else {
        JoinUndoesSplit(Step(st, c), current + [c], rest);
      }
    }
  }

  lemma JoinFirst(first: string, pieces: seq<string>)
    ensures Join([first] + pieces) == if pieces == [] then first else first + "," + Join(pieces)
  {
    assert ([first] + pieces)[1..] == pieces;
  }

  lemma SeparatorKeeps(st: State, c: char)
    requires Separates(st, c)
    ensures Step(st, c) == st && c == ','
  {
  }

  lemma LastOfRest(st: State, text: string)
    requires text != ""
    ensures var c, rest := text[0], text[1..];
            if rest == "" then EndsWithSeparator(st, text) == Separates(st, c) && text == [c] &&
                !EndsWithSeparator(Step(st, c), rest)
            else EndsWithSeparator(st, text) == EndsWithSeparator(Step(st, c), rest)
                 && text[..|text| - 1] == [c] + rest[..|rest| - 1] && text == [c] + rest
  {
    hide Step, Separates;
    var rest := text[1..];
    if rest != "" {
      assert text[..|text| - 1][1..] == rest[..|rest| - 1];
    } else {
      assert text[..0] == "";
    }
  }

  lemma {:induction false} SplitNotEmpty(st: State, current: string, text: string)
    requires current != "" || text != ""
    ensures Split(st, current, text) != []
    decreases |text|
  {
    if text != "" && !Separates(st, text[0]) {
      SplitNotEmpty(Step(st, text[0]), current + [text[0]], text[1..]);
    }
  }

  /** A list that splitting can give: no piece holds a separating comma, and every piece but the
      last closes what it opens. */
  predicate Separable(pieces: seq<string>) {
    pieces == [] ||
    (Whole(START, pieces[0]) && (|pieces| == 1 || (Closed(pieces[0]) && Separable(pieces[1..]))))
  }

  lemma {:induction false} AppendChar(st: State, text: string, c: char)
    requires Whole(st, text) && !Separates(StateAfter(st, text), c)
    ensures Whole(st, text + [c]) && StateAfter(st, text + [c]) == Step(StateAfter(st, text), c)
    decreases |text|
  {
    if text == "" {
      assert StateAfter(Step(st, c), "") == Step(st, c);
      assert text + [c] == [c] && [c][1..] == "";
    } else {
      assert (text + [c])[1..] == text[1..] + [c];
      AppendChar(Step(st, text[0]), text[1..], c);
    }
  }

  lemma {:induction false} PiecesAreSeparable(st: State, current: string, text: string)
    requires Whole(START, current) && StateAfter(START, current) == st
    ensures Separable(Split(st, current, text))
    decreases |text|
  {
    if text != "" {
      if Separates(st, text[0]) {
        PiecesAreSeparable(START, "", text[1..]);
        var more := Split(st, "", text[1..]);
        assert ([current] + more)[1..] == more;
      } else {
        AppendChar(START, current, text[0]);
        PiecesAreSeparable(Step(st, text[0]), current + [text[0]], text[1..]);
      }
    }
  }

  /** Unless the text ends with a separating comma the last piece is not empty. */
  lemma {:induction false} LastPiece(st: State, current: string, text: string)
    requires !EndsWithSeparator(st, text)
    ensures var r := Split(st, current, text); r != [] ==> r[|r| - 1] != ""
    decreases |text|
  {
    if text != "" {
      var c, rest := text[0], text[1..];
      var st' := Step(st, c);
      assert text[..0] == "";
      assert rest != "" ==>
          text[..|text| - 1] == [c] + rest[..|rest| - 1] && ([c] + rest[..|rest| - 1])[1..] == rest[..|rest| - 1];
      if Separates(st, c) {
        assert st' == st;
        LastPiece(st, "", rest);
        SplitNotEmpty(st, "", rest);
      } else {
        LastPiece(st', current + [c], rest);
      }
    }
  }

  lemma {:induction false} WholePiece(st: State, current: string, piece: string)
    requires Whole(st, piece)
    ensures Split(st, current, piece) == if current + piece == "" then [] else [current + piece]
    decreases |piece|
  {
    if piece == "" {
      assert current + piece == current;
    } else {
      assert (current + [piece[0]]) + piece[1..] == current + piece;
      WholePiece(Step(st, piece[0]), current + [piece[0]], piece[1..]);
    }
  }

  lemma {:induction false} FirstPiece(st: State, current: string, piece: string, rest: string)
    requires Whole(st, piece) && StateAfter(st, piece) == START
    ensures Split(st, current, piece + "," + rest) == [current + piece] + Arguments(rest)
    decreases |piece|
  {
    var text := piece + "," + rest;
    if piece == "" {
      assert text[0] == ',' && text[1..] == rest && current + piece == current;
    } else {
      assert text[0] == piece[0] && text[1..] == piece[1..] + "," + rest;
      assert (current + [piece[0]]) + piece[1..] == current + piece;
      FirstPiece(Step(st, piece[0]), current + [piece[0]], piece[1..], rest);
    }
  }

  lemma {:induction false} SplitUndoesJoin(pieces: seq<string>)
    requires pieces != [] && Separable(pieces) && pieces[|pieces| - 1] != ""
    ensures Arguments(Join(pieces)) == pieces
    decreases |pieces|
  {
    if |pieces| == 1 {
      WholePiece(START, "", pieces[0]);
      assert "" + pieces[0] == pieces[0];
    } else {
      SplitUndoesJoin(pieces[1..]);
      FirstPiece(START, "", pieces[0], Join(pieces[1..]));
      assert "" + pieces[0] == pieces[0];
    }
  }

  /** Splitting gives a joined list back exactly when no piece holds a separating comma, every piece
      but the last closes what it opens, and the last is not empty. */
  lemma RoundTripIff(pieces: seq<string>)
    requires pieces != []
    ensures Arguments(Join(pieces)) == pieces <==> Separable(pieces) && pieces[|pieces| - 1] != ""
  {
    var text := Join(pieces);
    if Arguments(text) == pieces {
      PiecesAreSeparable(START, "", text);
      JoinUndoesSplit(START, "", text);
      assert "" + text == text;
      LastPiece(START, "", text);
    } else if Separable(pieces) && pieces[|pieces| - 1] != "" {
      SplitUndoesJoin(pieces);
    }
  }

  /** Every piece that is not empty splits to itself. */
  lemma PiecesSplitToThemselves(text: string, i: nat)
    requires i < |Arguments(text)| && Arguments(text)[i] != ""
    ensures Arguments(Arguments(text)[i]) == [Arguments(text)[i]]
  {
    PiecesAreSeparable(START, "", text);
    SeparableWhole(Arguments(text), i);
    WholePiece(START, "", Arguments(text)[i]);
    assert "" + Arguments(text)[i] == Arguments(text)[i];
  }

  lemma {:induction false} SeparableWhole(pieces: seq<string>, i: nat)
    requires Separable(pieces) && i < |pieces|
    ensures Whole(START, pieces[i])
    decreases |pieces|
  {
    if i > 0 {
      SeparableWhole(pieces[1..], i - 1);
    }
  }
}
