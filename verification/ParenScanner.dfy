/** The test converter's search for a closing parenthesis, on the states of the argument splitter:
    both see strings and backslashes in the same way. */
module ParenScanner {
  import opened ArgSplitter

  /** At c, in state st, the parenthesis depth returns to zero. */
  predicate Closes(st: State, c: char) { st.mode == Plain && c == ')' && st.paren == 1 }

  /** The first position from i on where it does, or -1. */
  function Scan(text: string, i: nat, st: State): int
    decreases |text| - i
  {
    if i >= |text| then -1 else if Closes(st, text[i]) then i else Scan(text, i + 1, Step(st, text[i]))
  }

  /** Finds the closing parenthesis for the one at `start`, -1 if there is none. */
  method FindParenEnd(text: string, start: nat) returns (r: int)
    ensures r == Scan(text, start, START)
  {
    var depth, i, inString, quote, escaped := 0, start, false, ' ', false;
    ghost var st := START;
    while i < |text|
      invariant Scan(text, start, START) == Scan(text, i, st)
      invariant st == Flags(inString, quote, escaped, depth, st.angle, st.brace)
      decreases |text| - i
    {
      var c := text[i];
      ghost var st0 := st;
      st := Step(st, c);
      if escaped {
        escaped := false;
        i := i + 1;
        continue;
      }
      if c == '\\' {
        escaped := true;
        i := i + 1;
        continue;
      }
      if inString {
        if c == quote {
          inString := false;
        }
        i := i + 1;
        continue;
      }
      if c == '"' || c == '\'' {
        inString := true;
        quote := c;
        i := i + 1;
        continue;
      }
      if c == '(' {
        depth := depth + 1;
      } else if c == ')' {
        depth := depth - 1;
        if depth == 0 {
          return i;
        }
      }
      i := i + 1;
    }
    return -1;
  }

  /** The state at position j. */
  function StateAt(text: string, i: nat, st: State, j: nat): State
    requires i <= j <= |text|
    decreases j - i
  {
    if i == j then st else StateAt(text, i + 1, Step(st, text[i]), j)
  }

  /** The result is the first position where the depth returns to zero; there is none exactly when
      it never does. */
  lemma {:induction false} ScanIsFirstClose(text: string, i: nat, st: State)
    requires i <= |text|
    ensures var r := Scan(text, i, st);
            if r == -1 then forall j | i <= j < |text| :: !Closes(StateAt(text, i, st, j), text[j])
            else i <= r < |text| && Closes(StateAt(text, i, st, r), text[r]) &&
                 forall j | i <= j < r :: !Closes(StateAt(text, i, st, j), text[j])
    decreases |text| - i
  {
    if i < |text| && !Closes(st, text[i]) {
      ScanIsFirstClose(text, i + 1, Step(st, text[i]));
    }
  }

  /** The splitter's states do not depend on the parenthesis depth, but for that depth. */
  lemma {:induction false} DepthShifts(text: string, i: nat, st: State, n: int, j: nat)
    requires i <= j <= |text|
    ensures StateAt(text, i, st.(paren := st.paren + n), j)
         == StateAt(text, i, st, j).(paren := StateAt(text, i, st, j).paren + n)
    decreases j - i
  {
    if i < j {
      DepthShifts(text, i + 1, Step(st, text[i]), n, j);
    }
  }

  lemma {:induction false} StateAtIsStateAfter(text: string, i: nat, st: State, j: nat)
    requires i <= j <= |text|
    ensures StateAt(text, i, st, j) == StateAfter(st, text[i..j])
    decreases j - i
  {
    if i < j {
      assert text[i..j][0] == text[i] && text[i..j][1..] == text[i + 1..j];
      StateAtIsStateAfter(text, i + 1, Step(st, text[i]), j);
    }
  }

  /** What stands between the parentheses found is, for the splitter, outside strings and closed in
      its parentheses: no comma after it is hidden by it, but by brackets of other kinds. */
  lemma ArgumentsAreClosed(text: string, start: nat)
    requires start < |text| && text[start] == '(' && Scan(text, start, START) >= 0
    ensures var r := Scan(text, start, START);
            start < r < |text| && text[r] == ')' &&
            var after := StateAfter(START, text[start + 1..r]);
            after.mode == Plain && after.paren == 0
  {
    var r := Scan(text, start, START);
    ScanIsFirstClose(text, start, START);
    StateAtIsStateAfter(text, start + 1, START, r);
    DepthShifts(text, start + 1, START, 1, r);
    assert Step(START, '(') == START.(paren := START.paren + 1);
  }
}
