/** The user type editor: a type is shown as `type(arguments)`, and its arguments are edited as a
    list that is written with quotes and commas. Texts hold no NUL characters. */
module UserTypes {

  // ------------------------------------------------------------------ type(arguments)

  /** Where c first occurs; the length when it does not. */
  function Find(s: string, c: char): (at: nat)
    ensures at <= |s| && (at < |s| ==> s[at] == c) && forall i :: 0 <= i < at ==> s[i] != c
  {
    if s == "" then 0 else if s[0] == c then 0 else 1 + Find(s[1..], c)
  }

  datatype Spec = Spec(name: string, args: string)

  /** Selecting a type fills its name and its arguments from the row. */
  function SplitSpec(spec: string): Spec {
    var at := Find(spec, '(');
    if at == |spec| then Spec(spec, "")
    else
      var start := at + 1;
      Spec(spec[..at], if spec[|spec| - 1] == ')' then spec[start..|spec| - 1] else spec[start..])
  }

  /** Editing the arguments writes the row. */
  function JoinSpec(s: Spec): string { if s.args == "" then s.name else s.name + "(" + s.args + ")" }

  lemma FindIs(s: string, c: char, at: nat)
    requires at <= |s| && (at < |s| ==> s[at] == c) && forall i :: 0 <= i < at ==> s[i] != c
    ensures Find(s, c) == at
  {
    var f := Find(s, c);
    assert !(f < at) && !(at < f);
  }

  /** Reading undoes writing, whatever the arguments, exactly when the type's name has no "(". */
  lemma SplitUndoesJoinIff(s: Spec)
    ensures SplitSpec(JoinSpec(s)) == s <==> '(' !in s.name
  {
    var text := JoinSpec(s);
    if '(' in s.name {
      NameHasNoParen(text);
    } else if s.args == "" {
      FindIs(text, '(', |text|);
    } else {
      assert text == s.name + ("(" + s.args + ")");
      FindIs(text, '(', |s.name|);
      assert text[|s.name| + 1..|text| - 1] == s.args;
    }
  }

  lemma NameHasNoParen(text: string)
    ensures '(' !in SplitSpec(text).name
  {
    var name := SplitSpec(text).name;
    forall i | 0 <= i < |name| ensures name[i] != '(' {
      assert name[i] == text[i];
    }
  }

  /** Writing undoes reading exactly for rows without "(", and for rows that end in ")" with
      something in between. */
  lemma JoinUndoesSplitIff(text: string)
    ensures var at := Find(text, '(');
            JoinSpec(SplitSpec(text)) == text <==>
            (at == |text| || (text[|text| - 1] == ')' && at + 2 < |text|))
  {
    var at := Find(text, '(');
    if at < |text| {
      hide Find;
      var s := SplitSpec(text);
      JoinLength(s);
      if text[|text| - 1] == ')' && s.args != "" {
        RowParts(text, at);
      }
    }
  }

  lemma JoinLength(s: Spec)
    ensures |JoinSpec(s)| == |s.name| + if s.args == "" then 0 else |s.args| + 2
  {
  }

  lemma RowParts(text: string, at: nat)
    requires at + 1 < |text| && text[at] == '(' && text[|text| - 1] == ')'
    ensures text == text[..at] + "(" + text[at + 1..|text| - 1] + ")"
  {
  }

  /** What each form of a row gives: the arguments end before a final ")", and go on to the end of a row
      that has "(" but does not end in ")". */
  lemma SplitRow(name: string, args: string)
    requires '(' !in name
    ensures SplitSpec(name) == Spec(name, "") && SplitSpec(name + "(" + args + ")") == Spec(name, args)
    ensures args == "" || args[|args| - 1] != ')' ==> SplitSpec(name + "(" + args) == Spec(name, args)
  {
    FindIs(name, '(', |name|);
    SplitAt(name, args + ")");
    assert name + "(" + args + ")" == name + "(" + (args + ")") && (args + ")")[..|args|] == args;
    SplitAt(name, args);
  }

  lemma SplitAt(name: string, after: string)
    requires '(' !in name
    ensures SplitSpec(name + "(" + after) ==
            Spec(name, if after != "" && after[|after| - 1] == ')' then after[..|after| - 1] else after)
  {
    var text := name + "(" + after;
    FindIs(text, '(', |name|);
    assert text[..|name|] == name && text[|name| + 1..] == after;
    assert after != "" ==> text[|name| + 1..|text| - 1] == after[..|after| - 1];
  }

  // ------------------------------------------------------------------ the argument list

  /** The pieces between commas; none of an empty text. */
  function Pieces(s: string): (pieces: seq<string>) {
    if s == "" then [] else PiecesFrom(s)
  }

  function PiecesFrom(s: string): (pieces: seq<string>)
    ensures |pieces| > 0
    decreases |s|
  {
    var at := Find(s, ',');
    if at == |s| then [s] else [s[..at]] + PiecesFrom(s[at + 1..])
  }

  predicate IsSpace(c: char) { c == ' ' || c == '\t' || c == '\n' || c == '\r' || c == 12 as char }

  function StripLeft(s: string): string { if s != "" && IsSpace(s[0]) then StripLeft(s[1..]) else s }

  function StripRight(s: string): string {
    if s != "" && IsSpace(s[|s| - 1]) then StripRight(s[..|s| - 1]) else s
  }

  /** One piece without surrounding space and quotes. */
  function Unquoted(piece: string): string {
    var p := StripRight(StripLeft(piece));
    if p != "" && p[0] == '\'' then
      var q := p[1..];
      if q != "" && q[|q| - 1] == '\'' then q[..|q| - 1] else q
    else p
  }

  function UnquotedAll(pieces: seq<string>): (list: seq<string>)
    ensures |list| == |pieces|
    ensures forall i :: 0 <= i < |list| ==> list[i] == Unquoted(pieces[i])
  {
    if pieces == [] then [] else [Unquoted(pieces[0])] + UnquotedAll(pieces[1..])
  }

  method ReadArguments(text: string) returns (list: seq<string>)
    ensures list == UnquotedAll(Pieces(text))
  {
    list := [];
    var pieces := Pieces(text);
    for i := 0 to |pieces|
      invariant |list| == i
      invariant forall k :: 0 <= k < i ==> list[k] == Unquoted(pieces[k])
    {
      var p := StripRight(StripLeft(pieces[i]));
      if p != "" && p[0] == '\'' {
        p := p[1..];
        if p != "" && p[|p| - 1] == '\'' {
          p := p[..|p| - 1];
        }
      }
      list := list + [p];
    }
  }

  function Quoted(item: string): string { "'" + item + "'" }

  function MoreArguments(list: seq<string>): string {
    if list == [] then "" else ", " + Quoted(list[0]) + MoreArguments(list[1..])
  }

  function Arguments(list: seq<string>): string {
    if list == [] then "" else Quoted(list[0]) + MoreArguments(list[1..])
  }

  method WriteArguments(list: seq<string>) returns (args: string)
    ensures args == Arguments(list)
  {
    args := "";
    ArgumentsNone();
    assert list[..0] == [];
    hide *;
    for i := 0 to |list|
      invariant args == Arguments(list[..i])
    {
      ArgumentsAppend(list[..i], list[i]);
      assert list[..i + 1] == list[..i] + [list[i]];
      if args != "" {
        args := args + ", ";
      }
      args := args + Quoted(list[i]);
    }
    assert list[..|list|] == list;
  }

  lemma ArgumentsNone()
    ensures Arguments([]) == ""
  {
  }

  lemma {:induction false} MoreAppend(list: seq<string>, item: string)
    ensures MoreArguments(list + [item]) == MoreArguments(list) + (", " + Quoted(item))
    decreases |list|
  {
    if list == [] {
      assert list + [item] == [item] && [item][1..] == [] && MoreArguments([]) == "";
    } else {
      assert (list + [item])[1..] == list[1..] + [item];
      MoreAppend(list[1..], item);
    }
  }

  lemma ArgumentsAppend(list: seq<string>, item: string)
    ensures Arguments(list + [item]) ==
      (if Arguments(list) == "" then "" else Arguments(list) + ", ") + Quoted(item)
  {
    if list == [] {
      assert list + [item] == [item] && [item][1..] == [] && MoreArguments([]) == "";
    } else {
      assert (list + [item])[1..] == list[1..] + [item];
      MoreAppend(list[1..], item);
      hide MoreArguments;
    }
  }

  /** What is written: every item in quotes, with a comma and a space between two. */
  lemma ArgumentsText(list: seq<string>, item: string)
    ensures Arguments([]) == "" && Arguments([item]) == "'" + item + "'"
    ensures list != [] ==> Arguments(list + [item]) == Arguments(list) + ", '" + item + "'"
  {
    ArgumentsAppend([], item);
    assert [] + [item] == [item];
    if list != [] {
      ArgumentsNotNone(list);
      ArgumentsAppend(list, item);
      hide Arguments;
      QuoteAfterComma(Arguments(list), item);
    }
  }

  lemma ArgumentsNotNone(list: seq<string>)
    requires list != []
    ensures Arguments(list) != ""
  {
  }

  lemma QuoteAfterComma(before: string, item: string)
    ensures before + ", " + Quoted(item) == before + ", '" + item + "'"
  {
    assert before + ", " + ("'" + item + "'") == before + (", " + "'") + item + "'" && ", " + "'" == ", '";
  }

  // ------------------------------------------------------------------ reading what somebody typed

  predicate White(s: string) { forall i :: 0 <= i < |s| ==> IsSpace(s[i]) }

  /** No white space at either end. */
  predicate Trimmed(s: string) { s != "" ==> !IsSpace(s[0]) && !IsSpace(s[|s| - 1]) }

  /** One argument as typed: with white space before and after it. */
  datatype Typed = Typed(before: string, core: string, after: string)

  function TypedText(t: Typed): string { t.before + t.core + t.after }

  predicate TypedOk(t: Typed) { White(t.before) && Trimmed(t.core) && White(t.after) && ',' !in TypedText(t) }

  lemma {:induction false} StripIs(before: string, core: string, after: string)
    requires White(before) && Trimmed(core) && White(after)
    ensures StripRight(StripLeft(before + core + after)) == core
    decreases |before|
  {
    if before != "" {
      assert (before + core + after)[1..] == before[1..] + core + after;
      StripIs(before[1..], core, after);
    } else {
      assert before + core + after == core + after;
      if core != "" {
        StripEnd(core, after);
      } else {
        AllWhite(after);
        assert core + after == after;
      }
    }
  }

  lemma {:induction false} StripEnd(core: string, after: string)
    requires Trimmed(core) && White(after)
    ensures StripRight(core + after) == core
  {
    if after != "" {
      assert (core + after)[..|core + after| - 1] == core + after[..|after| - 1];
      StripEnd(core, after[..|after| - 1]);
    } else {
      assert core + after == core;
    }
  }

  lemma {:induction false} AllWhite(s: string)
    requires White(s)
    ensures StripLeft(s) == ""
  {
    if s != "" {
      AllWhite(s[1..]);
    }
  }

  /** A piece without a quote at its beginning is its text without the surrounding white space. A quote there
      is dropped, and then one at the end. */
  lemma UnquotedIs(before: string, core: string, after: string)
    requires White(before) && Trimmed(core) && White(after)
    ensures core == "" || core[0] != '\'' ==> Unquoted(before + core + after) == core
    ensures core != "" && core[0] == '\'' ==>
              Unquoted(before + core + after) ==
              if |core| > 1 && core[|core| - 1] == '\'' then core[1..|core| - 1] else core[1..]
  {
    StripIs(before, core, after);
    assert |core| > 1 ==> core[1..][..|core| - 2] == core[1..|core| - 1];
  }

  /** The typed text: the arguments with commas between them. */
  function TypedList(list: seq<Typed>): string
    requires list != []
  {
    if |list| == 1 then TypedText(list[0]) else TypedText(list[0]) + ("," + TypedList(list[1..]))
  }

  /** Typed without a quote at its beginning. */
  predicate PlainTyped(t: Typed) { TypedOk(t) && (t.core != "" ==> t.core[0] != '\'') }

  /** Arguments typed without quotes, such as `10, 2`, are read as they stand; only a text that is
      altogether empty has no argument. */
  lemma TypedArguments(list: seq<Typed>, cores: seq<string>)
    requires list != [] && |cores| == |list| && TypedList(list) != ""
    requires forall i :: 0 <= i < |list| ==> PlainTyped(list[i]) && cores[i] == list[i].core
    ensures UnquotedAll(Pieces(TypedList(list))) == cores
  {
    TypedPieces(list, cores);
  }

  lemma {:induction false} TypedPieces(list: seq<Typed>, cores: seq<string>)
    requires list != [] && |cores| == |list|
    requires forall i :: 0 <= i < |list| ==> PlainTyped(list[i]) && cores[i] == list[i].core
    ensures UnquotedAll(PiecesFrom(TypedList(list))) == cores
    decreases |list|
  {
    hide *;
    var text := TypedText(list[0]);
    TypedHead(list);
    UnquotedNone();
    if |list| == 1 {
      FirstPiece(text, "");
      assert text + "" == text && [text] + [] == [text];
      UnquotedHead(text, []);
    } else {
      var more := TypedList(list[1..]);
      FirstPiece(text, "," + more);
      assert ("," + more)[1..] == more;
      TypedPieces(list[1..], cores[1..]);
      UnquotedHead(text, PiecesFrom(more));
      assert cores == [cores[0]] + cores[1..];
    }
  }

  lemma TypedHead(list: seq<Typed>)
    requires list != [] && PlainTyped(list[0])
    ensures ',' !in TypedText(list[0]) && Unquoted(TypedText(list[0])) == list[0].core
    ensures TypedList(list) ==
            if |list| == 1 then TypedText(list[0]) else TypedText(list[0]) + ("," + TypedList(list[1..]))
  {
    UnquotedIs(list[0].before, list[0].core, list[0].after);
    hide Unquoted;
  }

  // ------------------------------------------------------------------ reading what was written

  predicate CommaFree(list: seq<string>) { forall item :: item in list ==> ',' !in item }

  lemma CommaFreeParts(list: seq<string>)
    requires list != []
    ensures CommaFree(list) == (',' !in list[0] && CommaFree(list[1..]))
  {
    assert list == [list[0]] + list[1..];
  }

  /** How many commas a text has. */
  function Commas(s: string): nat {
    if s == "" then 0 else (if s[0] == ',' then 1 else 0) + Commas(s[1..])
  }

  lemma {:induction false} CommasConcat(s: string, t: string)
    ensures Commas(s + t) == Commas(s) + Commas(t)
  {
    if s == "" {
      assert s + t == t;
    } else {
      assert (s + t)[1..] == s[1..] + t;
      CommasConcat(s[1..], t);
    }
  }

  lemma {:induction false} NoCommas(s: string)
    ensures Commas(s) == 0 <==> ',' !in s
  {
    if s != "" {
      assert s == [s[0]] + s[1..];
      NoCommas(s[1..]);
    }
  }

  lemma {:induction false} PieceCount(s: string)
    ensures |PiecesFrom(s)| == 1 + Commas(s)
    decreases |s|
  {
    var at := Find(s, ',');
    if at == |s| {
      NoCommas(s);
    } else {
      assert s == s[..at] + ([','] + s[at + 1..]);
      CommasConcat(s[..at], [','] + s[at + 1..]);
      CommasConcat([','], s[at + 1..]);
      NoCommas(s[..at]);
      assert Commas([',']) == 1 + Commas([]);
      PieceCount(s[at + 1..]);
    }
  }

  lemma QuotedCommas(item: string)
    ensures Commas(Quoted(item)) == Commas(item) && Commas(", ") == 1
  {
    CommasConcat("'" + item, "'");
    CommasConcat("'", item);
    assert Commas("'") == 0 + Commas("");
    assert ", "[1..] == " " && " "[1..] == "";
    assert Commas(" ") == 0 + Commas("");
    assert Commas(", ") == 1 + Commas(" ");
  }

  lemma {:induction false} MoreCommas(list: seq<string>)
    ensures Commas(MoreArguments(list)) >= |list|
    ensures !CommaFree(list) ==> Commas(MoreArguments(list)) > |list|
    decreases |list|
  {
    if list != [] {
      CommaFreeParts(list);
      MoreCommas(list[1..]);
      QuotedCommas(list[0]);
      NoCommas(list[0]);
      CommasConcat(", " + Quoted(list[0]), MoreArguments(list[1..]));
      CommasConcat(", ", Quoted(list[0]));
      hide CommaFree, Commas, Quoted;
    }
  }

  lemma UnquotedQuoted(item: string)
    ensures Unquoted(Quoted(item)) == item && Unquoted(" " + Quoted(item)) == item
  {
    var q := Quoted(item);
    assert (" " + q)[1..] == q;
    assert StripLeft(" " + q) == StripLeft(q) == q;
    assert StripRight(q) == q;
    assert q[1..] == item + "'";
    assert (item + "'")[..|item|] == item;
  }

  /** The first piece of a text that begins with a comma-free part and ends or goes on after a comma. */
  lemma FirstPiece(first: string, more: string)
    requires ',' !in first && (more != "" ==> more[0] == ',')
    ensures PiecesFrom(first + more) == if more == "" then [first] else [first] + PiecesFrom(more[1..])
  {
    var s := first + more;
    FindIs(s, ',', |first|);
    hide Find;
    if more != "" {
      assert s[|first| + 1..] == more[1..];
    } else {
      assert s == first;
    }
  }

  /** Text that saving produces, read back. */
  lemma {:induction false} ListComesBack(list: seq<string>, lead: string)
    requires list != [] && CommaFree(list) && (lead == "" || lead == " ")
    ensures UnquotedAll(PiecesFrom(lead + Arguments(list))) == list
    decreases |list|
  {
    hide *;
    var item, more := list[0], MoreArguments(list[1..]);
    CommaFreeParts(list);
    var first := lead + Quoted(item);
    ArgumentsHead(list);
    assert lead + (Quoted(item) + more) == first + more;
    QuotedHasNoComma(item, lead);
    MoreHead(list[1..]);
    FirstPiece(first, more);
    UnquotedQuoted(item);
    assert "" + Quoted(item) == Quoted(item);
    UnquotedHead(first, if more == "" then [] else PiecesFrom(more[1..]));
    if |list| > 1 {
      ListComesBack(list[1..], " ");
      assert list == [item] + list[1..];
    } else {
      assert list == [item] && [first] + [] == [first];
      UnquotedNone();
    }
  }

  lemma UnquotedNone()
    ensures UnquotedAll([]) == []
  {
  }

  lemma UnquotedHead(piece: string, pieces: seq<string>)
    ensures UnquotedAll([piece] + pieces) == [Unquoted(piece)] + UnquotedAll(pieces)
  {
    assert ([piece] + pieces)[1..] == pieces;
  }

  lemma ArgumentsHead(list: seq<string>)
    requires list != []
    ensures Arguments(list) == Quoted(list[0]) + MoreArguments(list[1..])
  {
  }

  lemma MoreHead(list: seq<string>)
    ensures list == [] ==> MoreArguments(list) == ""
    ensures var more := MoreArguments(list);
            list != [] ==> more != "" && more[0] == ',' && more[1..] == " " + Arguments(list)
  {
    if list != [] {
      hide Quoted;
      assert ", " == "," + " ";
      var q, more := Quoted(list[0]), MoreArguments(list[1..]);
      assert "," + " " + q + more == "," + (" " + (q + more));
    }
  }

  lemma QuotedHasNoComma(item: string, lead: string)
    requires ',' !in item && (lead == "" || lead == " ")
    ensures ',' !in lead + Quoted(item)
  {
  }

  /** Reading back the written arguments gives the same list, for any items: empty, padded with
      spaces or holding quotes; exactly when none holds a comma. */
  lemma ReadUndoesWriteIff(list: seq<string>)
    ensures UnquotedAll(Pieces(Arguments(list))) == list <==> CommaFree(list)
  {
    hide *;
    if list == [] {
      NoArguments();
    } else {
      ArgumentsNotEmpty(list);
      if CommaFree(list) {
        ListComesBack(list, "");
        assert "" + Arguments(list) == Arguments(list);
      } else {
        ArgumentCommas(list);
        PieceCount(Arguments(list));
      }
    }
  }

  lemma NoArguments()
    ensures UnquotedAll(Pieces(Arguments([]))) == [] && CommaFree([])
  {
  }

  lemma ArgumentsNotEmpty(list: seq<string>)
    requires list != []
    ensures Pieces(Arguments(list)) == PiecesFrom(Arguments(list))
    ensures |UnquotedAll(PiecesFrom(Arguments(list)))| == |PiecesFrom(Arguments(list))|
  {
    hide PiecesFrom;
  }

  lemma ArgumentCommas(list: seq<string>)
    requires list != [] && !CommaFree(list)
    ensures Commas(Arguments(list)) >= |list|
  {
    CommaFreeParts(list);
    MoreCommas(list[1..]);
    QuotedCommas(list[0]);
    NoCommas(list[0]);
    CommasConcat(Quoted(list[0]), MoreArguments(list[1..]));
    hide CommaFree, Commas, Quoted;
  }

  /** The whole trip: a type and an argument list written into the row, the row selected and its
      arguments opened for editing. */
  lemma EditedTypeComesBack(name: string, list: seq<string>)
    requires '(' !in name && CommaFree(list)
    ensures var s := SplitSpec(JoinSpec(Spec(name, Arguments(list))));
            s.name == name && UnquotedAll(Pieces(s.args)) == list
  {
    SplitUndoesJoinIff(Spec(name, Arguments(list)));
    ReadUndoesWriteIff(list);
  }
}
