/** Names for new and duplicated connections: numbers are tried until no connection has the name. */
module ConnectionNames {
  import opened Sequences

  const DIGITS: string := "0123456789"

  /** `%i` of a number that is not negative. */
  function Decimal(n: nat): (text: string)
    ensures text != ""
  {
    if n < 10 then [DIGITS[n]] else Decimal(n / 10) + [DIGITS[n % 10]]
  }

  /** The number a text of digits stands for. */
  function Value(text: string): int {
    if text == "" then 0 else 10 * Value(text[..|text| - 1]) + (text[|text| - 1] as int - '0' as int)
  }

  /** Digits without a leading zero, or "0". */
  predicate Plain(text: string) {
    text != "" && (forall i :: 0 <= i < |text| ==> '0' <= text[i] <= '9') && (|text| > 1 ==> text[0] != '0')
  }

  lemma DigitIs(d: nat)
    requires d < 10
    ensures '0' <= DIGITS[d] <= '9' && DIGITS[d] as int - '0' as int == d
  {
  }

  lemma DigitOf(c: char)
    requires '0' <= c <= '9'
    ensures DIGITS[c as int - '0' as int] == c
  {
  }

  /** The decimal text of a number is the one text of digits without a leading zero that stands for it. */
  lemma {:induction false} DecimalIff(n: nat, text: string)
    ensures text == Decimal(n) <==> Plain(text) && Value(text) == n
    decreases n
  {
    DecimalStandsFor(n);
    if Plain(text) && Value(text) == n {
      StandsForOne(n, text);
    }
  }

  lemma {:induction false} DecimalStandsFor(n: nat)
    ensures Plain(Decimal(n)) && Value(Decimal(n)) == n && (n > 0 ==> Decimal(n)[0] != '0')
    decreases n
  {
    DigitIs(n % 10);
    if n < 10 {
      assert [DIGITS[n]][..0] == "";
    } else {
      DecimalStandsFor(n / 10);
      assert (Decimal(n / 10) + [DIGITS[n % 10]])[..|Decimal(n)| - 1] == Decimal(n / 10);
    }
  }

  lemma {:induction false} StandsForOne(n: nat, text: string)
    requires Plain(text) && Value(text) == n
    ensures text == Decimal(n)
    decreases |text|
  {
    var more := text[..|text| - 1];
    LastDigit(text);
    if |text| > 1 {
      hide *;
      StandsForOne(Value(more), more);
      OneMoreDigit(Value(more), n - 10 * Value(more));
    }
  }

  lemma LastDigit(text: string)
    requires Plain(text)
    ensures var more, d := text[..|text| - 1], text[|text| - 1] as int - '0' as int;
            0 <= d < 10 && Value(text) == 10 * Value(more) + d && text == more + [DIGITS[d]]
            && (|text| > 1 ==> Plain(more) && Value(more) > 0) && (|text| == 1 ==> text == Decimal(d))
  {
    DigitOf(text[|text| - 1]);
    if |text| > 1 {
      assert text[..|text| - 1][0] == text[0];
      ValueAtLeast(text[..|text| - 1]);
    }
  }

  lemma OneMoreDigit(v: nat, d: nat)
    requires v > 0 && d < 10
    ensures Decimal(10 * v + d) == Decimal(v) + [DIGITS[d]]
  {
    assert (10 * v + d) / 10 == v && (10 * v + d) % 10 == d;
  }

  lemma {:induction false} ValueAtLeast(text: string)
    requires Plain(text)
    ensures Value(text) >= 0 && (text[0] != '0' ==> Value(text) > 0)
  {
    if |text| > 1 {
      ValueAtLeast(text[..|text| - 1]);
    } else {
      assert text[..|text| - 1] == "";
    }
  }

  lemma DecimalIsInjective(a: nat, b: nat)
    requires Decimal(a) == Decimal(b)
    ensures a == b
  {
    DecimalIff(a, Decimal(b));
    DecimalIff(b, Decimal(b));
  }

  /** The names tried for a new connection: without a number, then numbered from 1 on. */
  function Candidate(k: nat): string {
    if k == 0 then "new connection" else "new connection " + Decimal(k)
  }

  lemma CandidateTexts()
    ensures Candidate(0) == "new connection"
    ensures forall k: nat :: k > 0 ==> Candidate(k) == "new connection " + Decimal(k)
  {
  }

  lemma CandidatesDiffer(i: nat, j: nat)
    requires i < j
    ensures Candidate(i) != Candidate(j)
  {
    if i > 0 && Candidate(i) == Candidate(j) {
      SamePrefix("new connection ", Decimal(i), Decimal(j));
      DecimalIsInjective(i, j);
    }
  }

  lemma SamePrefix(prefix: string, s: string, t: string)
    requires prefix + s == prefix + t
    ensures s == t
  {
    assert s == (prefix + s)[|prefix|..] && t == (prefix + t)[|prefix|..];
  }

  /** k names in use take at least k connections. */
  lemma CandidatesInUse(k: nat, names: seq<string>)
    requires forall j :: 0 <= j < k ==> Candidate(j) in names
    ensures k <= |names|
  {
    hide Candidate, Copy, Decimal;
    var used := seq(k, j requires 0 <= j < k => Candidate(j));
    forall i, j | 0 <= i < j < k ensures used[i] != used[j] {
      CandidatesDiffer(i, j);
    }
    Pigeonhole(used, names);
  }

  /** Candidate k is the first that no connection has. */
  predicate FirstFree(names: seq<string>, k: nat) {
    Candidate(k) !in names && forall j :: 0 <= j < k ==> Candidate(j) in names
  }

  /** The number of that candidate. */
  function FreeNumber(names: seq<string>, k: nat): (n: nat)
    requires forall j :: 0 <= j < k ==> Candidate(j) in names
    ensures FirstFree(names, n)
    decreases |names| + 1 - k
  {
    if Candidate(k) !in names then k
    else
      CandidatesInUse(k + 1, names);
      FreeNumber(names, k + 1)
  }

  lemma FirstFreeIs(names: seq<string>, k: nat)
    requires FirstFree(names, k)
    ensures FreeNumber(names, 0) == k
  {
    var n := FreeNumber(names, 0);
    assert !(n < k) && !(k < n);
  }

  /** There is such a candidate among the first |names| + 1, and the loop finds it. */
  method NewName(names: seq<string>) returns (name: string, k: nat)
    ensures name == if k == 0 then "new connection" else "new connection " + Decimal(k)
    ensures k <= |names| && FirstFree(names, k) && name == Candidate(k)
  {
    CandidateTexts();
    hide Candidate;
    name, k := Candidate(0), 0;
    var i, dupe := 1, true;
    while dupe
      invariant i == k + 1 && k <= |names| && name == Candidate(k)
      invariant forall j :: 0 <= j < k ==> Candidate(j) in names
      invariant !dupe ==> name !in names
      decreases |names| - k, dupe
    {
      dupe := false;
      for c := 0 to |names|
        invariant name !in names[..c] && !dupe
        invariant i == k + 1 && k <= |names| && name == Candidate(k)
      {
        if names[c] == name {
          CandidatesInUse(k + 1, names);
          name, k, i := Candidate(i), i, i + 1;
          dupe := true;
          break;
        }
        assert names[..c + 1] == names[..c] + [names[c]];
      }
      assert !dupe ==> names[..|names|] == names;
    }
  }

  // ------------------------------------------------------------------ duplicates

  /** The names tried for a copy; the first one is tried twice. */
  function Copy(prefix: string, k: nat): string { prefix + Decimal(k) }

  lemma CopiesDiffer(prefix: string, i: nat, j: nat)
    requires i < j
    ensures Copy(prefix, i) != Copy(prefix, j)
  {
    if Copy(prefix, i) == Copy(prefix, j) {
      SamePrefix(prefix, Decimal(i), Decimal(j));
      DecimalIsInjective(i, j);
    }
  }

  lemma CopiesInUse(prefix: string, k: nat, names: seq<string>)
    requires forall j :: 1 <= j <= k ==> Copy(prefix, j) in names
    ensures k <= |names|
  {
    hide Candidate, Copy, Decimal;
    var used := seq(k, j requires 0 <= j < k => Copy(prefix, j + 1));
    forall i, j | 0 <= i < j < k ensures used[i] != used[j] {
      CopiesDiffer(prefix, i + 1, j + 1);
    }
    Pigeonhole(used, names);
  }

  /** n is the least number from 1 on that gives a name not in use. */
  predicate FirstFreeCopy(names: seq<string>, prefix: string, n: nat) {
    n >= 1 && Copy(prefix, n) !in names && forall j :: 1 <= j < n ==> Copy(prefix, j) in names
  }

  function FreeCopyNumber(names: seq<string>, prefix: string, k: nat): (n: nat)
    requires k >= 1 && forall j :: 1 <= j < k ==> Copy(prefix, j) in names
    ensures FirstFreeCopy(names, prefix, n)
    decreases |names| + 2 - k
  {
    if Copy(prefix, k) !in names then k
    else
      CopiesInUse(prefix, k, names);
      FreeCopyNumber(names, prefix, k + 1)
  }

  lemma FirstFreeCopyIs(names: seq<string>, prefix: string, k: nat)
    requires FirstFreeCopy(names, prefix, k)
    ensures FreeCopyNumber(names, prefix, 1) == k
  {
    var n := FreeCopyNumber(names, prefix, 1);
    assert !(n < k) && !(k < n);
  }

  lemma CopyIs(prefix: string)
    ensures forall k: nat :: Copy(prefix, k) == prefix + Decimal(k)
  {
  }

  /** The suggestion for a copy. */
  method NameSuggestion(names: seq<string>, prefix: string) returns (name: string, n: nat)
    ensures n <= |names| + 1 && FirstFreeCopy(names, prefix, n) && name == Copy(prefix, n) == prefix + Decimal(n)
  {
    CopyIs(prefix);
    hide Copy;
    var x := 1;
    n := 1;
    name := Copy(prefix, n);
    while name in names
      invariant n == (if x == 1 then 1 else x - 1) && n <= |names| + 1 && x >= 1
      invariant name == Copy(prefix, n)
      invariant forall j :: 1 <= j < n ==> Copy(prefix, j) in names
      decreases |names| + 2 - x
    {
      CopiesInUse(prefix, n, names);
      n := x;
      name := Copy(prefix, n);
      x := x + 1;
    }
  }
}
