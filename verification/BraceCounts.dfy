/** What the states of the brace scanner are, by counting: braces in code, outside quotes and
    comments, and nothing else. */
module BraceCounts {
  import opened BraceScanner

  /** Neither a quote, a backslash nor a slash. */
  predicate Bare(c: char) { c != '"' && c != '\'' && c != '\\' && c != '/' }

  /** How often c occurs from i to j. */
  function Count(text: string, i: nat, j: nat, c: char): nat
    requires i <= j <= |text|
    decreases j - i
  {
    if i == j then 0 else (if text[i] == c then 1 else 0) + Count(text, i + 1, j, c)
  }

  /** From i to j the scanner goes from state st to state st', and the depth changes by n. */
  ghost predicate Goes(text: string, i: nat, st: State, j: nat, st': State, n: int)
    requires i <= j <= |text|
  {
    StateAt(text, i, st, j) == st' && forall depth :: DepthAt(text, i, st, depth, j) == depth + n
  }

  lemma GoesStep(text: string, i: nat, st: State, j: nat, st': State, n: int)
    requires i < j <= |text| && Goes(text, i + 1, Step(st, text[i]), j, st', n)
    ensures Goes(text, i, st, j, st', n + Change(st, text[i]))
  {
  }

  lemma GoesNowhere(text: string, i: nat, st: State)
    requires i <= |text|
    ensures Goes(text, i, st, i, st, 0)
  {
  }

  lemma {:induction false} Through(text: string, i: nat, st: State, depth: int, j: nat, k: nat)
    requires i <= j <= k <= |text|
    ensures StateAt(text, i, st, k) == StateAt(text, j, StateAt(text, i, st, j), k)
    ensures DepthAt(text, i, st, depth, k) ==
            DepthAt(text, j, StateAt(text, i, st, j), DepthAt(text, i, st, depth, j), k)
    decreases j - i
  {
    if i < j {
      Through(text, i + 1, Step(st, text[i]), depth + Change(st, text[i]), j, k);
    }
  }

  /** One stretch after another. */
  lemma GoesThrough(text: string, i: nat, st: State, j: nat, st1: State, n: int, k: nat, st2: State, n2: int)
    requires i <= j <= k <= |text| && Goes(text, i, st, j, st1, n) && Goes(text, j, st1, k, st2, n2)
    ensures Goes(text, i, st, k, st2, n + n2)
  {
    Through(text, i, st, 0, j, k);
    forall depth
      ensures DepthAt(text, i, st, depth, k) == depth + (n + n2)
    {
      Through(text, i, st, depth, j, k);
      assert DepthAt(text, i, st, depth, j) == depth + n;
    }
  }

  /** In bare text the braces are counted. */
  lemma {:induction false} BareCounts(text: string, i: nat, j: nat)
    requires i <= j <= |text| && forall k :: i <= k < j ==> Bare(text[k])
    ensures Goes(text, i, Code, j, Code, Count(text, i, j, '{') - Count(text, i, j, '}'))
    decreases j - i
  {
    if i < j {
      BareCounts(text, i + 1, j);
      GoesStep(text, i, Code, j, Code, Count(text, i + 1, j, '{') - Count(text, i + 1, j, '}'));
    } else {
      GoesNowhere(text, i, Code);
    }
  }

  lemma {:induction false} QuotedText(text: string, i: nat, j: nat, quote: char)
    requires i <= j < |text| && text[j] == quote && quote != '\\'
    requires forall k :: i <= k < j ==> text[k] != quote && text[k] != '\\'
    ensures Goes(text, i, Text(quote), j + 1, Code, 0)
    decreases j - i
  {
    if i < j {
      QuotedText(text, i + 1, j, quote);
      GoesStep(text, i, Text(quote), j + 1, Code, 0);
    } else {
      GoesNowhere(text, j + 1, Code);
      GoesStep(text, j, Text(quote), j + 1, Code, 0);
    }
  }

  /** A quoted literal from i to j is passed over, whatever it holds. */
  lemma QuotedIsSkipped(text: string, i: nat, j: nat)
    requires i < j < |text| && text[i] == text[j] && (text[i] == '"' || text[i] == '\'')
    requires forall k :: i < k < j ==> text[k] != text[i] && text[k] != '\\'
    ensures Goes(text, i, Code, j + 1, Code, 0)
  {
    QuotedText(text, i + 1, j, text[i]);
    GoesStep(text, i, Code, j + 1, Code, 0);
  }

  /** So is a backslash with the character after it, in code and in quotes. */
  lemma EscapedIsSkipped(text: string, i: nat, quote: char)
    requires i + 2 <= |text| && text[i] == '\\'
    ensures Goes(text, i, Code, i + 2, Code, 0) && Goes(text, i, Text(quote), i + 2, Text(quote), 0)
  {
    GoesNowhere(text, i + 2, Code);
    GoesStep(text, i + 1, Escape, i + 2, Code, 0);
    GoesStep(text, i, Code, i + 2, Code, 0);
    GoesNowhere(text, i + 2, Text(quote));
    GoesStep(text, i + 1, TextEscape(quote), i + 2, Text(quote), 0);
    GoesStep(text, i, Text(quote), i + 2, Text(quote), 0);
  }

  lemma {:induction false} LineText(text: string, i: nat, j: nat)
    requires i <= j < |text| && text[j] == '\n' && forall k :: i <= k < j ==> text[k] != '\n'
    ensures Goes(text, i, Line, j + 1, Code, 0)
    decreases j - i
  {
    if i < j {
      LineText(text, i + 1, j);
      GoesStep(text, i, Line, j + 1, Code, 0);
    } else {
      GoesNowhere(text, j + 1, Code);
      GoesStep(text, j, Line, j + 1, Code, 0);
    }
  }

  /** A comment from two slashes to the end of the line is passed over. */
  lemma LineIsSkipped(text: string, i: nat, j: nat)
    requires i + 2 <= j < |text| && text[i] == '/' && text[i + 1] == '/' && text[j] == '\n'
    requires forall k :: i + 2 <= k < j ==> text[k] != '\n'
    ensures Goes(text, i, Code, j + 1, Code, 0)
  {
    LineText(text, i + 2, j);
    GoesStep(text, i + 1, Slash, j + 1, Code, 0);
    GoesStep(text, i, Code, j + 1, Code, 0);
  }

  /** Inside a comment, before its end at j; `star` when the last character was a star. */
  lemma {:induction false} BlockText(text: string, i: nat, j: nat, star: bool)
    requires i <= j && j + 2 <= |text| && text[j] == '*' && text[j + 1] == '/'
    requires forall k :: i <= k < j ==> !(text[k] == '*' && text[k + 1] == '/')
    requires star ==> text[i] != '/'
    ensures Goes(text, i, if star then Star else Block, j + 2, Code, 0)
    decreases j - i
  {
    var st := if star then Star else Block;
    if i < j {
      BlockText(text, i + 1, j, text[i] == '*');
    } else {
      GoesNowhere(text, j + 2, Code);
      GoesStep(text, j + 1, Star, j + 2, Code, 0);
    }
    GoesStep(text, i, st, j + 2, Code, 0);
  }

  /** A comment from slash and star to the first star and slash after them is passed over. */
  lemma BlockIsSkipped(text: string, i: nat, j: nat)
    requires i + 2 <= j && j + 2 <= |text|
    requires text[i] == '/' && text[i + 1] == '*' && text[j] == '*' && text[j + 1] == '/'
    requires forall k :: i + 2 <= k < j ==> !(text[k] == '*' && text[k + 1] == '/')
    ensures Goes(text, i, Code, j + 2, Code, 0)
  {
    BlockText(text, i + 2, j, false);
    GoesStep(text, i + 1, Slash, j + 2, Code, 0);
    GoesStep(text, i, Code, j + 2, Code, 0);
  }

  /** A slash that begins no comment is an ordinary character. */
  lemma LoneSlashCounts(text: string, i: nat, j: nat)
    requires i + 1 < j <= |text| && text[i] == '/' && Bare(text[i + 1]) && text[i + 1] != '*'
    requires forall k :: i < k < j ==> Bare(text[k])
    ensures Goes(text, i, Code, j, Code, Count(text, i, j, '{') - Count(text, i, j, '}'))
  {
    BareCounts(text, i + 2, j);
    GoesStep(text, i + 1, Slash, j, Code, Count(text, i + 2, j, '{') - Count(text, i + 2, j, '}'));
    GoesStep(text, i, Code, j, Code, Count(text, i + 1, j, '{') - Count(text, i + 1, j, '}'));
  }
}
