/** What the states of the argument splitter are, by counting: parentheses, angle brackets and braces
    outside quotes, and nothing else. */
module ArgCounts {
  import opened ArgSplitter

  /** A stretch of text: characters that are neither quotes nor backslashes, a quoted literal, or a
      backslash and the character after it. */
  datatype Stretch = Bare(text: string) | Quoted(quote: char, text: string) | Escaped(c: char)

  predicate StretchOk(s: Stretch) {
    match s
    case Bare(text) => forall i :: 0 <= i < |text| ==> text[i] != '"' && text[i] != '\'' && text[i] != '\\'
    case Quoted(quote, text) =>
      (quote == '"' || quote == '\'') && forall i :: 0 <= i < |text| ==> text[i] != quote && text[i] != '\\'
    case Escaped(_) => true
  }

  predicate AllOk(stretches: seq<Stretch>) { forall i :: 0 <= i < |stretches| ==> StretchOk(stretches[i]) }

  function Written(s: Stretch): string {
    match s
    case Bare(text) => text
    case Quoted(quote, text) => [quote] + text + [quote]
    case Escaped(c) => ['\\', c]
  }

  function WrittenAll(stretches: seq<Stretch>): string {
    if stretches == [] then "" else Written(stretches[0]) + WrittenAll(stretches[1..])
  }

  function Count(text: string, c: char): nat {
    if text == "" then 0 else (if text[0] == c then 1 else 0) + Count(text[1..], c)
  }

  /** How often c occurs in the bare stretches. */
  function BareCount(stretches: seq<Stretch>, c: char): nat {
    if stretches == [] then 0
    else (if stretches[0].Bare? then Count(stretches[0].text, c) else 0) + BareCount(stretches[1..], c)
  }

  lemma {:induction false} AfterConcat(st: State, a: string, b: string)
    ensures StateAfter(st, a + b) == StateAfter(StateAfter(st, a), b)
    decreases |a|
  {
    if a == "" {
      assert a + b == b;
    } else {
      assert (a + b)[1..] == a[1..] + b;
      AfterConcat(Step(st, a[0]), a[1..], b);
    }
  }

  function Shifted(st: State, text: string): State {
    State(Plain, st.paren + Count(text, '(') - Count(text, ')'), st.angle + Count(text, '<') - Count(text, '>'),
          st.brace + Count(text, '{') - Count(text, '}'))
  }

  /** Bare text is counted. */
  lemma {:induction false} BareCounts(st: State, text: string)
    requires st.mode == Plain && StretchOk(Bare(text))
    ensures StateAfter(st, text) == Shifted(st, text)
    decreases |text|
  {
    if text != "" {
      var c := text[0];
      assert c != '"' && c != '\'' && c != '\\';
      assert StretchOk(Bare(text[1..]));
      BareCounts(Step(st, c), text[1..]);
    }
  }

  /** A quoted literal is not, whatever it holds. */
  lemma {:induction false} QuotedText(st: State, quote: char, text: string)
    requires StretchOk(Quoted(quote, text))
    ensures StateAfter(st.(mode := Text(quote)), text + [quote]) == st.(mode := Plain)
    decreases |text|
  {
    if text == "" {
      assert text + [quote] == [quote] && [quote][1..] == "";
      assert StateAfter(st.(mode := Plain), "") == st.(mode := Plain);
    } else {
      assert (text + [quote])[1..] == text[1..] + [quote];
      assert text[0] != quote && text[0] != '\\';
      assert StretchOk(Quoted(quote, text[1..]));
      QuotedText(st, quote, text[1..]);
    }
  }

  lemma QuotedIsSkipped(st: State, quote: char, text: string)
    requires st.mode == Plain && StretchOk(Quoted(quote, text))
    ensures StateAfter(st, [quote] + text + [quote]) == st
  {
    assert ([quote] + text + [quote])[1..] == text + [quote];
    QuotedText(st, quote, text);
  }

  lemma EscapedIsSkipped(st: State, c: char)
    requires st.mode == Plain
    ensures StateAfter(st, ['\\', c]) == st
  {
    assert ['\\', c][1..] == [c] && [c][1..] == "";
    assert StateAfter(st.(mode := Escape), [c]) == StateAfter(st, "");
  }

  /** Inside a quoted literal, too, a backslash takes the next character with it. */
  lemma EscapedInQuotes(st: State, quote: char, c: char)
    requires quote != '\\'
    ensures StateAfter(st.(mode := Text(quote)), ['\\', c]) == st.(mode := Text(quote))
  {
    assert ['\\', c][1..] == [c] && [c][1..] == "";
    assert StateAfter(st.(mode := TextEscape(quote)), [c]) == StateAfter(st.(mode := Text(quote)), "");
  }

  function Counted(st: State, stretches: seq<Stretch>): State {
    State(Plain, st.paren + BareCount(stretches, '(') - BareCount(stretches, ')'),
          st.angle + BareCount(stretches, '<') - BareCount(stretches, '>'),
          st.brace + BareCount(stretches, '{') - BareCount(stretches, '}'))
  }

  lemma CountedMore(st: State, stretches: seq<Stretch>)
    requires st.mode == Plain && stretches != []
    ensures Counted(st, stretches) ==
            Counted(if stretches[0].Bare? then Shifted(st, stretches[0].text) else st, stretches[1..])
  {
    hide Count;
  }

  lemma OneStretch(st: State, s: Stretch)
    requires st.mode == Plain && StretchOk(s)
    ensures StateAfter(st, Written(s)) == if s.Bare? then Shifted(st, s.text) else st
  {
    hide StateAfter, StretchOk, Count;
    match s
    case Bare(text) => BareCounts(st, text);
    case Quoted(quote, text) => QuotedIsSkipped(st, quote, text);
    case Escaped(c) => EscapedIsSkipped(st, c);
  }

  /** The state after any text made of such stretches: plain, with the numbers of opening characters
      less closing ones of each kind. */
  lemma {:induction false} StateIsCounts(st: State, stretches: seq<Stretch>)
    requires st.mode == Plain && AllOk(stretches)
    ensures StateAfter(st, WrittenAll(stretches)) == Counted(st, stretches)
    decreases |stretches|
  {
    if stretches != [] {
      var s, rest := stretches[0], stretches[1..];
      AfterConcat(st, Written(s), WrittenAll(rest));
      OneStretch(st, s);
      CountedMore(st, stretches);
      hide StateAfter, StretchOk, Step, Counted;
      StateIsCounts(StateAfter(st, Written(s)), rest);
    }
  }

  predicate Balanced(stretches: seq<Stretch>) {
    BareCount(stretches, '(') == BareCount(stretches, ')') && BareCount(stretches, '<') == BareCount(stretches, '>')
    && BareCount(stretches, '{') == BareCount(stretches, '}')
  }

  /** A comma after such text separates arguments exactly when every kind of bracket is balanced. */
  lemma CommaSeparatesIff(stretches: seq<Stretch>)
    requires AllOk(stretches)
    ensures Separates(StateAfter(START, WrittenAll(stretches)), ',') <==> Balanced(stretches)
    ensures Closed(WrittenAll(stretches)) <==> Balanced(stretches)
  {
    StateIsCounts(START, stretches);
    hide StateAfter, AllOk, BareCount;
  }

  /** A comma in quotes, after a backslash, or with a bracket open does not. */
  lemma OpenBracketHides(stretches: seq<Stretch>, c: char)
    requires AllOk(stretches) && (!Balanced(stretches) || c != ',')
    ensures !Separates(StateAfter(START, WrittenAll(stretches)), c)
  {
    CommaSeparatesIff(stretches);
  }

  /** Arguments made of balanced stretches without commas outside quotes and brackets: each is an
      argument of its own. */
  lemma TwoArguments(first: seq<Stretch>, rest: string)
    requires AllOk(first) && Balanced(first) && Whole(START, WrittenAll(first))
    ensures Arguments(WrittenAll(first) + "," + rest) == [WrittenAll(first)] + Arguments(rest)
  {
    CommaSeparatesIff(first);
    hide WrittenAll, AllOk, Balanced;
    FirstPiece(START, "", WrittenAll(first), rest);
    assert "" + WrittenAll(first) == WrittenAll(first);
  }
}
