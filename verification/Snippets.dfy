/** The shell's snippet file: every line of a snippet is written after a space, and an empty line
    comes between snippets. Lines are read back with `fgets` into a buffer of 4096 bytes. Files
    hold no NUL characters. */
module Snippets {

  const BUFFER: nat := 4096

  /** `replaceString(s, "\n", "\n ")` */
  function Indent(s: string): string {
    if s == "" then "" else (if s[0] == '\n' then "\n " else [s[0]]) + Indent(s[1..])
  }

  /** One snippet in the file. */
  function Entry(s: string): string { " " + Indent(s) + "\n" }

  function SavedAfter(snippets: seq<string>): string {
    if snippets == [] then "" else "\n" + Entry(snippets[0]) + SavedAfter(snippets[1..])
  }

  function Saved(snippets: seq<string>): string {
    if snippets == [] then "" else Entry(snippets[0]) + SavedAfter(snippets[1..])
  }

  method SaveSnippets(snippets: seq<string>) returns (file: string)
    ensures file == Saved(snippets)
  {
    hide *;
    file := "";
    SavedNone();
    assert snippets[..0] == [];
    for i := 0 to |snippets|
      invariant file == Saved(snippets[..i])
    {
      SavedAppend(snippets[..i], snippets[i]);
      if i > 0 {
        file := file + "\n";
      }
      EntryParts(snippets[i]);
      file := file + (" " + Indent(snippets[i]) + "\n");
      assert snippets[..i] + [snippets[i]] == snippets[..i + 1];
    }
    assert snippets[..|snippets|] == snippets;
  }

  lemma SavedNone()
    ensures Saved([]) == ""
  {
  }

  lemma EntryParts(s: string)
    ensures Entry(s) == " " + Indent(s) + "\n"
  {
  }

  lemma {:induction false} SavedAfterAppend(snippets: seq<string>, s: string)
    ensures SavedAfter(snippets + [s]) == SavedAfter(snippets) + ("\n" + Entry(s))
    decreases |snippets|
  {
    if snippets == [] {
      assert SavedAfter([]) == "" && snippets + [s] == [s] && [s][1..] == [];
    } else {
      assert (snippets + [s])[1..] == snippets[1..] + [s];
      SavedAfterAppend(snippets[1..], s);
    }
  }

  lemma SavedAppend(snippets: seq<string>, s: string)
    ensures Saved(snippets + [s]) == if snippets == [] then Entry(s) else Saved(snippets) + "\n" + Entry(s)
  {
    if snippets == [] {
      assert snippets + [s] == [s] && [s][1..] == [] && SavedAfter([]) == "";
    } else {
      assert (snippets + [s])[1..] == snippets[1..] + [s];
      SavedAfterAppend(snippets[1..], s);
      hide Entry;
    }
  }

  /** The file, line by line: each line of a snippet after a space, and an empty line between snippets. */
  lemma SavedText(snippets: seq<string>, line: string, more: string)
    requires '\n' !in line
    ensures Saved([]) == "" && Saved([line]) == " " + line + "\n"
    ensures Saved([line + "\n" + more]) == " " + line + "\n" + Saved([more])
    ensures snippets != [] ==> Saved(snippets + [more]) == Saved(snippets) + "\n" + Saved([more])
  {
    IndentLine(line, more);
    One(line);
    One(more);
    One(line + "\n" + more);
    SavedAppend(snippets, more);
    hide *;
    SavedNone();
    LineBreakSpace(line, Indent(more));
  }

  lemma One(s: string)
    ensures Saved([s]) == " " + Indent(s) + "\n" && Entry(s) == Saved([s])
  {
    assert [s][1..] == [] && SavedAfter([]) == "";
  }

  lemma LineBreakSpace(line: string, later: string)
    ensures " " + (line + "\n " + later) + "\n" == " " + line + "\n" + (" " + later + "\n")
  {
    assert "\n " == "\n" + " ";
  }

  lemma {:induction false} IndentLine(line: string, more: string)
    requires '\n' !in line
    ensures Indent(line) == line && Indent(line + "\n" + more) == line + "\n " + Indent(more)
  {
    if line == "" {
      assert ("\n" + more)[1..] == more && "" + "\n" + more == "\n" + more;
    } else {
      assert (line + "\n" + more)[1..] == line[1..] + "\n" + more;
      IndentLine(line[1..], more);
    }
  }

  // ------------------------------------------------------------------ reading back

  /** How many characters of the unread text `fgets` takes: up to a line break, at most `limit`. */
  function LineLength(text: string, limit: nat): (n: nat)
    ensures n <= |text| && n <= limit
    ensures limit > 0 && text != "" ==> n > 0
  {
    if limit == 0 || text == "" then 0
    else if text[0] == '\n' then 1
    else 1 + LineLength(text[1..], limit - 1)
  }

  /** What is appended to a snippet, and the text left unread. */
  datatype More = More(script: string, rest: string)

  /** The further lines of a snippet: those that begin with a space, without it. The first other
      line is read too, and lost. */
  function MoreLines(text: string): (more: More)
    ensures |more.rest| <= |text|
    decreases |text|
  {
    var n := LineLength(text, BUFFER - 2);
    if n == 0 then More("", text)
    else if text[0] != ' ' then More("", text[n..])
    else
      var more := MoreLines(text[n..]);
      More(text[1..n] + more.script, more.rest)
  }

  /** The text before the first line break: the title that editing gives a snippet. */
  function FirstLine(s: string): (line: string)
    ensures |line| <= |s|
  {
    if s == "" || s[0] == '\n' then "" else [s[0]] + FirstLine(s[1..])
  }

  /** The text without its last character, the line break that saving added. */
  function DropLast(s: string): string { if s == "" then "" else s[..|s| - 1] }

  /** A snippet in the list: its title and its text. */
  datatype Loaded = Loaded(title: string, script: string)

  function Load(text: string): seq<Loaded>
    decreases |text|
  {
    var n := LineLength(text, BUFFER - 1);
    if n == 0 then []
    else
      var more := MoreLines(text[n..]);
      [Loaded(FirstLine(text[1..n]), DropLast(text[1..n] + more.script))] + Load(more.rest)
  }

  method LoadSnippetsFrom(file: string) returns (list: seq<Loaded>)
    ensures list == Load(file)
  {
    list := [];
    var text := file;
    while true
      invariant list + Load(text) == Load(file)
      decreases |text|
    {
      var n := LineLength(text, BUFFER - 1);
      LoadStep(text);
      hide Load, LineLength, MoreLines, DropLast, FirstLine;
      if n == 0 {
        break;
      }
      var script := text[1..n];
      var name := FirstLine(script);
      script, text := AppendLines(text[n..], script);
      script := DropLast(script);
      Regroup(list, Loaded(name, script), Load(text));
      list := list + [Loaded(name, script)];
    }
  }

  lemma Regroup(had: seq<Loaded>, one: Loaded, more: seq<Loaded>)
    ensures had + ([one] + more) == had + [one] + more
  {
  }

  lemma LoadStep(text: string)
    ensures var n := LineLength(text, BUFFER - 1);
            if n == 0 then Load(text) == []
            else
              var more := MoreLines(text[n..]);
              Load(text) == [Loaded(FirstLine(text[1..n]), DropLast(text[1..n] + more.script))] + Load(more.rest)
  {
    hide LineLength, MoreLines, DropLast, FirstLine;
  }

  /** The inner loop: appends the further lines of a snippet. */
  method AppendLines(text0: string, script0: string) returns (script: string, text: string)
    ensures script == script0 + MoreLines(text0).script
    ensures text == MoreLines(text0).rest
  {
    script, text := script0, text0;
    while true
      invariant script + MoreLines(text).script == script0 + MoreLines(text0).script
      invariant MoreLines(text).rest == MoreLines(text0).rest
      decreases |text|
    {
      ghost var more := MoreLines(text);
      var n := LineLength(text, BUFFER - 2);
      var line := text[..n];
      if n == 0 || line[0] != ' ' {
        assert more == More("", text[n..]) && script + "" == script;
        text := text[n..];
        return;
      }
      assert line[1..] == text[1..n];
      assert script + (line[1..] + MoreLines(text[n..]).script) == script + line[1..] + MoreLines(text[n..]).script;
      hide LineLength;
      text := text[n..];
      script := script + line[1..];
    }
  }

  // ------------------------------------------------------------------ saving, then loading

  /** The text after the first line and its break. */
  function LaterText(s: string): string
    requires |FirstLine(s)| < |s|
  {
    s[|FirstLine(s)| + 1..]
  }

  /** Every line of s, read with the inner loop's buffer, comes whole: at most 4092 characters. */
  predicate LinesFit(s: string)
    decreases |s|
  {
    |FirstLine(s)| <= 4092 && (|FirstLine(s)| < |s| ==> LinesFit(LaterText(s)))
  }

  /** The same for a snippet, whose first line is read with one character more. */
  predicate Fits(s: string) {
    |FirstLine(s)| <= 4093 && (|FirstLine(s)| < |s| ==> LinesFit(LaterText(s)))
  }

  /** A snippet's text in the file from some place in a line on, followed by R. */
  function Unread(s: string, R: string): string { Indent(s) + "\n" + R }

  /** What follows the line break after the first line of s. */
  function AfterLine(s: string, R: string): string {
    if |FirstLine(s)| == |s| then R else " " + Unread(LaterText(s), R)
  }

  /** What may follow a snippet in the file: nothing, or an empty line. */
  predicate Separated(R: string) { R != "" ==> R[0] == '\n' }

  lemma {:induction false} IndentDrop(s: string, k: nat)
    requires k <= |FirstLine(s)|
    ensures FirstLine(s) == s[..k] + FirstLine(s[k..])
    ensures Indent(s) == s[..k] + Indent(s[k..])
  {
    hide *;
    if k == 0 {
      assert s[0..] == s;
    } else {
      FirstCharacter(s);
      IndentDrop(s[1..], k - 1);
      assert s[1..][k - 1..] == s[k..] && s[..k] == [s[0]] + s[1..][..k - 1];
    }
  }

  lemma FirstCharacter(s: string)
    requires FirstLine(s) != ""
    ensures s != ""
    ensures FirstLine(s) == [s[0]] + FirstLine(s[1..]) && Indent(s) == [s[0]] + Indent(s[1..])
  {
  }

  /** The title is the text before the first line break, or all of it. */
  lemma {:induction false} TitleIsTextBeforeBreak(s: string, p: nat)
    requires p <= |s| && (p < |s| ==> s[p] == '\n')
    requires forall i :: 0 <= i < p ==> s[i] != '\n'
    ensures FirstLine(s) == s[..p]
  {
    if p > 0 {
      TitleIsTextBeforeBreak(s[1..], p - 1);
    }
  }

  lemma LineBreakAt(s: string)
    requires FirstLine(s) == ""
    ensures Indent(s) == if s == "" then "" else "\n " + Indent(s[1..])
  {
  }

  lemma UnreadDrop(s: string, R: string, k: nat)
    requires k <= |FirstLine(s)|
    ensures |Unread(s, R)| >= k && Unread(s, R)[k..] == Unread(s[k..], R) && Unread(s, R)[..k] == s[..k]
  {
    IndentDrop(s, k);
    hide Indent, FirstLine;
    assert Unread(s, R) == s[..k] + Unread(s[k..], R);
  }

  /** A text is its first line alone, or its first line, a line break and later text. */
  lemma LineParts(s: string)
    ensures FirstLine(s) == s[..|FirstLine(s)|]
    ensures |FirstLine(s)| < |s| ==> s == FirstLine(s) + "\n" + LaterText(s)
    ensures Indent(s) == if |FirstLine(s)| == |s| then s else FirstLine(s) + "\n " + Indent(LaterText(s))
  {
    hide *;
    var k := |FirstLine(s)|;
    LineAndRest(s);
    IndentDrop(s, k);
    LineBreakAt(s[k..]);
    if k < |s| {
      LaterTextIs(s);
      assert s[k..][1..] == s[k + 1..];
      assert FirstLine(s) + ("\n " + Indent(LaterText(s))) == FirstLine(s) + "\n " + Indent(LaterText(s));
    } else {
      assert s[..k] == s && s[..k] + "" == s;
    }
  }

  lemma LineAndRest(s: string)
    ensures var k := |FirstLine(s)|;
            FirstLine(s) == s[..k] && FirstLine(s[k..]) == ""
            && (k < |s| ==> s == FirstLine(s) + "\n" + s[k + 1..])
  {
    hide *;
    var k := |FirstLine(s)|;
    IndentDrop(s, k);
    assert |s[..k]| == k && FirstLine(s[k..]) == "" && FirstLine(s) == s[..k];
    BreakAfterFirstLine(s);
    if k < |s| {
      assert s == s[..k] + [s[k]] + s[k + 1..];
    }
  }

  lemma LaterTextIs(s: string)
    requires |FirstLine(s)| < |s|
    ensures LaterText(s) == s[|FirstLine(s)| + 1..]
  {
  }

  lemma UnreadLine(s: string, R: string)
    ensures Unread(s, R) == FirstLine(s) + "\n" + AfterLine(s, R)
  {
    LineParts(s);
    hide Indent, FirstLine;
    if |FirstLine(s)| < |s| {
      BreakThenSpace(FirstLine(s), Indent(LaterText(s)), R);
    }
  }

  lemma BreakThenSpace(line: string, later: string, R: string)
    ensures line + "\n " + later + "\n" + R == line + "\n" + (" " + (later + "\n" + R))
  {
    assert "\n " == "\n" + " ";
    assert line + ("\n" + " ") == line + "\n" + " ";
  }

  lemma {:induction false} FirstLineHasNoBreak(s: string)
    ensures forall i :: 0 <= i < |FirstLine(s)| ==> FirstLine(s)[i] != '\n'
  {
    if s != "" {
      FirstLineHasNoBreak(s[1..]);
    }
  }

  lemma {:induction false} BreakAfterFirstLine(s: string)
    ensures |FirstLine(s)| < |s| ==> s[|FirstLine(s)|] == '\n'
  {
    if s != "" && s[0] != '\n' {
      BreakAfterFirstLine(s[1..]);
    }
  }

  /** A read takes a line with its break, or as much of it as fits. */
  lemma {:induction false} ReadTakes(line: string, rest: string, limit: nat)
    requires forall i :: 0 <= i < |line| ==> line[i] != '\n'
    ensures LineLength(line + "\n" + rest, limit) == if |line| < limit then |line| + 1 else limit
    decreases |line|
  {
    var text := line + "\n" + rest;
    if limit > 0 && line != "" {
      assert text[1..] == line[1..] + "\n" + rest;
      ReadTakes(line[1..], rest, limit - 1);
    }
  }

  lemma SpaceFirst(s: string, R: string)
    ensures " " + Unread(s, R) == (" " + FirstLine(s)) + "\n" + AfterLine(s, R)
    ensures forall i :: 0 <= i < |" " + FirstLine(s)| ==> (" " + FirstLine(s))[i] != '\n'
  {
    UnreadLine(s, R);
    FirstLineHasNoBreak(s);
    hide Unread, AfterLine, FirstLine;
  }

  lemma {:induction false} SeparatorEnds(R: string)
    requires Separated(R)
    ensures MoreLines(R) == More("", if R == "" then "" else R[1..])
  {
    if R != "" {
      assert R == "" + "\n" + R[1..];
      ReadTakes("", R[1..], BUFFER - 2);
    }
  }

  lemma MoreStep(text: string, n: nat)
    requires text != "" && n == LineLength(text, BUFFER - 2)
    ensures MoreLines(text) == if text[0] != ' ' then More("", text[n..])
            else More(text[1..n] + MoreLines(text[n..]).script, MoreLines(text[n..]).rest)
  {
  }

  /** One line that comes whole. */
  lemma WholeLine(s: string, R: string)
    requires |FirstLine(s)| <= BUFFER - 4
    ensures MoreLines(" " + Unread(s, R)) ==
      More(FirstLine(s) + "\n" + MoreLines(AfterLine(s, R)).script, MoreLines(AfterLine(s, R)).rest)
  {
    hide *;
    SpaceFirst(s, R);
    ReadTakes(" " + FirstLine(s), AfterLine(s, R), BUFFER - 2);
    var text, n := " " + Unread(s, R), |FirstLine(s)| + 2;
    MoreStep(text, n);
    assert text[1..n] == FirstLine(s) + "\n" && text[n..] == AfterLine(s, R) && text[0] == ' ';
  }

  /** Lines that fit are read back as they were, and the reader stops after the separator. */
  lemma {:induction false} FittingLinesComeBack(s: string, R: string)
    requires LinesFit(s) && Separated(R)
    ensures MoreLines(" " + Unread(s, R)) == More(s + "\n", if R == "" then "" else R[1..])
    decreases |s|
  {
    hide MoreLines, Unread, FirstLine;
    WholeLine(s, R);
    LineParts(s);
    if |FirstLine(s)| == |s| {
      SeparatorEnds(R);
      assert s + "\n" + "" == s + "\n";
    } else {
      FittingLinesComeBack(LaterText(s), R);
      assert FirstLine(s) + "\n" + (LaterText(s) + "\n") == s + "\n";
    }
  }

  /** A line that does not come whole: the reader goes on in the middle of it. */
  lemma CutLine(s: string, R: string)
    requires |FirstLine(s)| > BUFFER - 4
    ensures MoreLines(" " + Unread(s, R)).script ==
      s[..BUFFER - 3] + MoreLines(Unread(s[BUFFER - 3..], R)).script
  {
    hide *;
    CutAt(s, R);
    SpaceFirst(s, R);
    ReadTakes(" " + FirstLine(s), AfterLine(s, R), BUFFER - 2);
    var text, n := " " + Unread(s, R), BUFFER - 2;
    MoreStep(text, n);
    assert text[1..n] == Unread(s, R)[..BUFFER - 3] && text[n..] == Unread(s, R)[BUFFER - 3..] && text[0] == ' ';
  }

  lemma CutAt(s: string, R: string)
    requires |FirstLine(s)| > BUFFER - 4
    ensures BUFFER == 4096
    ensures |Unread(s, R)| >= BUFFER - 3
    ensures Unread(s, R)[..BUFFER - 3] == s[..BUFFER - 3] && Unread(s, R)[BUFFER - 3..] == Unread(s[BUFFER - 3..], R)
  {
    UnreadDrop(s, R, BUFFER - 3);
  }

  /** A read that starts in the middle of a line loses a character or stops. */
  lemma {:induction false} MidLineLoses(s: string, R: string)
    requires Separated(R)
    ensures |MoreLines(Unread(s, R)).script| <= |s|
    decreases |s|, 1
  {
    var text, line := Unread(s, R), FirstLine(s);
    UnreadLine(s, R);
    FirstLineHasNoBreak(s);
    ReadTakes(line, AfterLine(s, R), BUFFER - 2);
    if |line| < BUFFER - 2 {
      MidLineStep(text, |line| + 1);
      assert text[|line| + 1..] == AfterLine(s, R);
      AfterLineLoses(s, R);
    } else {
      MidLineStep(text, BUFFER - 2);
      UnreadDrop(s, R, BUFFER - 2);
      MidLineLoses(s[BUFFER - 2..], R);
    }
  }

  lemma MidLineStep(text: string, n: nat)
    requires text != "" && n == LineLength(text, BUFFER - 2)
    ensures 0 < n <= |text|
    ensures |MoreLines(text).script| <= n - 1 + |MoreLines(text[n..]).script|
  {
    MoreStep(text, n);
    hide MoreLines;
  }

  lemma {:induction false} AfterLineLoses(s: string, R: string)
    requires Separated(R)
    ensures |MoreLines(AfterLine(s, R)).script| <= |s| - |FirstLine(s)|
    decreases |s|, 0
  {
    if |FirstLine(s)| == |s| {
      SeparatorEnds(R);
    } else {
      LineStartLoses(LaterText(s), R);
    }
  }

  /** Further lines never grow, and where one does not fit the text comes back shorter. */
  lemma {:induction false} LineStartLoses(s: string, R: string)
    requires Separated(R)
    ensures |MoreLines(" " + Unread(s, R)).script| <= |s| + if LinesFit(s) then 1 else 0
    decreases |s|, 1
  {
    var later := |FirstLine(s)| < |s|;
    if |FirstLine(s)| > BUFFER - 4 {
      CutLine(s, R);
      MidLineLoses(s[BUFFER - 3..], R);
      hide MoreLines, Unread;
    } else {
      WholeLine(s, R);
      hide MoreLines, Unread;
      if |FirstLine(s)| == |s| {
        SeparatorEnds(R);
      } else {
        LineStartLoses(LaterText(s), R);
      }
    }
  }

  // ------------------------------------------------------------------ the whole file

  /** One snippet and what follows it. */
  function OneLoaded(s: string, R: string): (Loaded, string) {
    var text := " " + Unread(s, R);
    var n := LineLength(text, BUFFER - 1);
    var more := MoreLines(text[n..]);
    (Loaded(FirstLine(text[1..n]), DropLast(text[1..n] + more.script)), more.rest)
  }

  lemma LoadOne(s: string, R: string)
    ensures |OneLoaded(s, R).1| <= |R| + |Indent(s)| + 2
    ensures Load(" " + Unread(s, R)) == [OneLoaded(s, R).0] + Load(OneLoaded(s, R).1)
  {
    LoadStep(" " + Unread(s, R));
    hide Load, MoreLines, DropLast, FirstLine, Indent;
  }

  lemma FirstLineOf(line: string, rest: string)
    requires forall i :: 0 <= i < |line| ==> line[i] != '\n'
    ensures FirstLine(line + "\n" + rest) == line
    ensures FirstLine(line) == line
  {
    if line != "" {
      assert (line + "\n" + rest)[1..] == line[1..] + "\n" + rest;
      FirstLineOf(line[1..], rest);
    }
  }

  lemma OneStep(s: string, R: string, n: nat)
    requires n == LineLength(" " + Unread(s, R), BUFFER - 1)
    ensures 0 < n <= 1 + |Unread(s, R)|
    ensures var text := " " + Unread(s, R);
            OneLoaded(s, R) == (Loaded(FirstLine(text[1..n]), DropLast(text[1..n] + MoreLines(text[n..]).script)),
                                MoreLines(text[n..]).rest)
  {
    hide MoreLines, FirstLine, DropLast, Unread;
  }

  /** A first line that comes whole. */
  lemma WholeFirstLine(s: string, R: string)
    requires |FirstLine(s)| <= BUFFER - 3
    ensures var line, more := FirstLine(s), MoreLines(AfterLine(s, R));
            OneLoaded(s, R) == (Loaded(line, DropLast(line + "\n" + more.script)), more.rest)
  {
    hide *;
    var line := FirstLine(s);
    SpaceFirst(s, R);
    FirstLineHasNoBreak(s);
    ReadTakes(" " + line, AfterLine(s, R), BUFFER - 1);
    FirstLineOf(line, "");
    var text, n := " " + Unread(s, R), |line| + 2;
    OneStep(s, R, n);
    assert text[1..n] == line + "\n" && text[n..] == AfterLine(s, R);
    assert line + "\n" == line + "\n" + "";
  }

  /** A first line that does not. */
  lemma CutFirstLine(s: string, R: string)
    requires |FirstLine(s)| > BUFFER - 3
    ensures BUFFER == 4096 && |s| >= BUFFER - 2
    ensures OneLoaded(s, R).0.script == DropLast(s[..BUFFER - 2] + MoreLines(Unread(s[BUFFER - 2..], R)).script)
  {
    hide *;
    CutFirstAt(s, R);
    SpaceFirst(s, R);
    ReadTakes(" " + FirstLine(s), AfterLine(s, R), BUFFER - 1);
    var text, n := " " + Unread(s, R), BUFFER - 1;
    OneStep(s, R, n);
    assert text[1..n] == Unread(s, R)[..BUFFER - 2] && text[n..] == Unread(s, R)[BUFFER - 2..];
  }

  lemma CutFirstAt(s: string, R: string)
    requires |FirstLine(s)| > BUFFER - 3
    ensures BUFFER == 4096
    ensures |Unread(s, R)| >= BUFFER - 2 && |s| >= BUFFER - 2
    ensures Unread(s, R)[..BUFFER - 2] == s[..BUFFER - 2] && Unread(s, R)[BUFFER - 2..] == Unread(s[BUFFER - 2..], R)
  {
    UnreadDrop(s, R, BUFFER - 2);
  }

  /** A snippet whose lines fit comes back whole, under the title that editing gives it. */
  lemma FittingSnippet(s: string, R: string)
    requires Fits(s) && Separated(R)
    ensures OneLoaded(s, R) == (Loaded(FirstLine(s), s), if R == "" then "" else R[1..])
  {
    hide OneLoaded, MoreLines, Unread, FirstLine;
    var line := FirstLine(s);
    WholeFirstLine(s, R);
    LineParts(s);
    if |line| == |s| {
      SeparatorEnds(R);
      assert line + "\n" + "" == s + "\n";
    } else {
      FittingLinesComeBack(LaterText(s), R);
      assert line + "\n" + (LaterText(s) + "\n") == s + "\n";
    }
  }

  /** A snippet with a line that does not fit comes back shorter. */
  lemma LongLineIsLost(s: string, R: string)
    requires !Fits(s) && Separated(R)
    ensures |OneLoaded(s, R).0.script| < |s|
  {
    hide OneLoaded, MoreLines, Unread, FirstLine;
    if |FirstLine(s)| > BUFFER - 3 {
      CutFirstLine(s, R);
      MidLineLoses(s[BUFFER - 2..], R);
    } else {
      WholeFirstLine(s, R);
      LineStartLoses(LaterText(s), R);
    }
  }

  /** What the list shows after editing: the text, titled by its first line. */
  function Shown(snippets: seq<string>): seq<Loaded> {
    if snippets == [] then [] else [Loaded(FirstLine(snippets[0]), snippets[0])] + Shown(snippets[1..])
  }

  lemma SavedHead(snippets: seq<string>)
    requires snippets != []
    ensures Saved(snippets) == " " + Unread(snippets[0], SavedAfter(snippets[1..]))
    ensures var R := SavedAfter(snippets[1..]); Separated(R) && Saved(snippets[1..]) == if R == "" then "" else R[1..]
  {
    hide Indent;
    var s, R := snippets[0], SavedAfter(snippets[1..]);
    assert " " + Indent(s) + "\n" + R == " " + (Indent(s) + "\n" + R);
    if |snippets| > 1 {
      var u, T := snippets[1], SavedAfter(snippets[2..]);
      assert snippets[1..][1..] == snippets[2..];
      assert "\n" + Entry(u) + T == "\n" + (Entry(u) + T);
    }
  }

  predicate AllFit(snippets: seq<string>) { forall s :: s in snippets ==> Fits(s) }

  lemma AllFitParts(snippets: seq<string>)
    requires snippets != []
    ensures AllFit(snippets) == (Fits(snippets[0]) && AllFit(snippets[1..]))
  {
    assert snippets == [snippets[0]] + snippets[1..];
  }

  lemma LoadNothing()
    ensures Load("") == []
  {
  }

  /** Loading a saved file gives the list that was saved, for any number of snippets and any line
      breaks in them, exactly when the lines fit. */
  lemma {:induction false} LoadUndoesSaveIff(snippets: seq<string>)
    ensures Load(Saved(snippets)) == Shown(snippets) <==> AllFit(snippets)
    decreases |snippets|
  {
    hide Load, Fits, FirstLine, Unread, OneLoaded, Separated, Indent;
    if snippets == [] {
      LoadNothing();
      assert AllFit([]);
    } else {
      var s, R := snippets[0], SavedAfter(snippets[1..]);
      SavedHead(snippets);
      LoadOne(s, R);
      AllFitParts(snippets);
      hide AllFit, Saved, SavedAfter;
      if Fits(s) {
        FittingSnippet(s, R);
        LoadUndoesSaveIff(snippets[1..]);
        SameTails(Loaded(FirstLine(s), s), Load(Saved(snippets[1..])), Shown(snippets[1..]));
      } else {
        LongLineIsLost(s, R);
        assert Load(Saved(snippets))[0].script != Shown(snippets)[0].script;
      }
    }
  }

  lemma SameTails(one: Loaded, a: seq<Loaded>, b: seq<Loaded>)
    ensures [one] + a == [one] + b <==> a == b
  {
    if [one] + a == [one] + b {
      assert a == ([one] + a)[1..] && b == ([one] + b)[1..];
    }
  }

  lemma {:induction false} ShownTexts(snippets: seq<string>, i: nat)
    requires i < |snippets|
    ensures |Shown(snippets)| == |snippets| && Shown(snippets)[i] == Loaded(FirstLine(snippets[i]), snippets[i])
  {
    if i > 0 {
      ShownTexts(snippets[1..], i - 1);
    } else if |snippets| > 1 {
      ShownTexts(snippets[1..], 0);
    }
  }

  /** Place by place: snippet i of the loaded list is snippet i of the saved one, under its first
      line as title. */
  lemma EachSnippetComesBack(snippets: seq<string>, i: nat)
    requires AllFit(snippets) && i < |snippets|
    ensures |Load(Saved(snippets))| == |snippets|
    ensures Load(Saved(snippets))[i] == Loaded(FirstLine(snippets[i]), snippets[i])
  {
    hide *;
    LoadUndoesSaveIff(snippets);
    ShownTexts(snippets, i);
  }
}
