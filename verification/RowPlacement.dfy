/** Where the rows of an image go on the screen: plain order, or the four passes of Appendix E of
    the GIF89a specification. */
module RowPlacement {

  /** The lines from, from + step, from + 2 * step, ... below `height`. */
  function Every(from: nat, step: nat, height: nat): seq<nat>
    requires step > 0
    decreases height - from
  {
    if from >= height then [] else [from] + Every(from + step, step, height)
  }

  /** The order in which Appendix E transmits the lines of an interlaced image. */
  function FourPasses(height: nat): seq<nat> {
    Every(0, 8, height) + Every(4, 8, height) + Every(2, 4, height) + Every(1, 2, height)
  }

  /** How many source rows precede each pass. */
  function Before2(height: nat): nat { (height + 7) / 8 }
  function Before3(height: nat): nat { Before2(height) + (height + 3) / 8 }
  function Before4(height: nat): nat { Before3(height) + (height + 1) / 4 }

  /** The heights at which the loop's single pass change per row is not enough. */
  predicate TooLow(height: nat) { 2 <= height <= 4 }

  /** The line, relative to the image, to which the copy loop sends a source row. */
  function LineOf(interlace: bool, height: nat, row: nat): nat {
    if !interlace then row
    else if TooLow(height) then (if row == 0 then 0 else if row == 1 then 4 else if row == 2 then 2 else 1)
    else if row < Before2(height) then 8 * row
    else if row < Before3(height) then 4 + 8 * (row - Before2(height))
    else if row < Before4(height) then 2 + 4 * (row - Before3(height))
    else 1 + 2 * (row - Before4(height))
  }

  lemma {:induction false} EveryAt(from: nat, step: nat, height: nat, k: nat)
    requires step in {2, 4, 8} && k < |Every(from, step, height)|
    ensures Every(from, step, height)[k] ==
            from + (if step == 8 then 8 * k else if step == 4 then 4 * k else 2 * k) < height
    decreases k
  {
    if k > 0 {
      EveryAt(from + step, step, height, k - 1);
    }
  }

  lemma {:induction false} EveryLength(from: nat, step: nat, height: nat)
    requires step in {2, 4, 8} && from < height + step
    ensures var n := |Every(from, step, height)|;
            height - from <= (if step == 8 then 8 * n else if step == 4 then 4 * n else 2 * n) < height - from + step
    decreases height + step - from
  {
    if from < height {
      EveryLength(from + step, step, height);
    }
  }

  /** Element `row` of the four sequences put one after the other. */
  function InFour(a: seq<nat>, b: seq<nat>, c: seq<nat>, d: seq<nat>, row: nat): nat
    requires row < |a| + |b| + |c| + |d|
  {
    if row < |a| then a[row]
    else if row < |a| + |b| then b[row - |a|]
    else if row < |a| + |b| + |c| then c[row - |a| - |b|]
    else d[row - |a| - |b| - |c|]
  }

  lemma FourParts(a: seq<nat>, b: seq<nat>, c: seq<nat>, d: seq<nat>, row: nat)
    requires row < |a| + |b| + |c| + |d|
    ensures |a + b + c + d| == |a| + |b| + |c| + |d| && (a + b + c + d)[row] == InFour(a, b, c, d, row)
  {
  }

  /** Each pass, taken from its first row on, is one of the four sequences of Appendix E. */
  lemma PassLines(height: nat, row: nat, a: seq<nat>, b: seq<nat>, c: seq<nat>, d: seq<nat>)
    requires !TooLow(height) && row < height
    requires a == Every(0, 8, height) && b == Every(4, 8, height) && c == Every(2, 4, height) &&
        d == Every(1, 2, height)
    requires |a| == Before2(height) && |b| == Before3(height) - Before2(height)
    requires |c| == Before4(height) - Before3(height) && |d| == height - Before4(height)
    ensures LineOf(true, height, row) == InFour(a, b, c, d, row)
  {
    hide Before2, Before3, Before4, Every;
    if row < |a| {
      EveryAt(0, 8, height, row);
    } else if row < |a| + |b| {
      EveryAt(4, 8, height, row - |a|);
    } else if row < |a| + |b| + |c| {
      EveryAt(2, 4, height, row - |a| - |b|);
    } else {
      EveryAt(1, 2, height, row - |a| - |b| - |c|);
    }
  }

  /** Outside heights 2..4 the copy loop follows the order of Appendix E. */
  lemma FollowsFourPasses(height: nat, row: nat)
    requires !TooLow(height) && row < height
    ensures |FourPasses(height)| == height && LineOf(true, height, row) == FourPasses(height)[row]
  {
    var a, b, c, d := Every(0, 8, height), Every(4, 8, height), Every(2, 4, height), Every(1, 2, height);
    PassLengths(height);
    PassLines(height, row, a, b, c, d);
    FourParts(a, b, c, d, row);
    hide LineOf, InFour, Every, Before2, Before3, Before4;
  }

  lemma LowPasses(height: nat)
    requires TooLow(height)
    ensures FourPasses(height) == if height == 2 then [0, 1] else if height == 3 then [0, 2, 1] else [0, 2, 1, 3]
  {
    assert Every(0, 8, height) == [0] + Every(8, 8, height) && Every(4, 8, height) == [];
    assert Every(2, 4, height) == if height > 2 then [2] + Every(6, 4, height) else [];
    assert Every(1, 2, height) == [1] + Every(3, 2, height);
    assert Every(3, 2, height) == if height > 3 then [3] + Every(5, 2, height) else [];
  }

  /** Every source row goes to the line of Appendix E. */
  predicate InOrder(height: nat) {
    |FourPasses(height)| == height &&
    forall row :: 0 <= row < height ==> LineOf(true, height, row) == FourPasses(height)[row]
  }

  /** The copy loop follows the order of Appendix E exactly outside heights 2..4. */
  lemma FollowsFourPassesIff(height: nat)
    ensures InOrder(height) <==> !TooLow(height)
  {
    if TooLow(height) {
      LowPasses(height);
      assert LineOf(true, height, 1) == 4;
    } else if height == 0 {
      assert FourPasses(0) == [];
    } else {
      FollowsFourPasses(height, 0);
      forall row | 0 <= row < height
        ensures LineOf(true, height, row) == FourPasses(height)[row]
      {
        FollowsFourPasses(height, row);
      }
    }
  }

  lemma PassLengths(height: nat)
    requires !TooLow(height)
    ensures |Every(0, 8, height)| == Before2(height)
    ensures |Every(4, 8, height)| == Before3(height) - Before2(height)
    ensures |Every(2, 4, height)| == Before4(height) - Before3(height)
    ensures |Every(1, 2, height)| == height - Before4(height)
  {
    if height > 0 {
      assert height == 1 || height >= 5;
      hide *;
      Ceilings(height);
      EveryLength(0, 8, height);
      EveryLength(4, 8, height);
      EveryLength(2, 4, height);
      EveryLength(1, 2, height);
      LastPass(height, Before2(height), Before3(height) - Before2(height), Before4(height) - Before3(height),
               |Every(0, 8, height)|, |Every(4, 8, height)|, |Every(2, 4, height)|, |Every(1, 2, height)|);
    }
  }

  lemma LastPass(height: nat, a: int, b: int, c: int, p: nat, q: nat, r: nat, s: nat)
    requires height == 1 || height >= 5
    requires 8 * a - 7 <= height <= 8 * a && 8 * b - 3 <= height <= 8 * b + 4 && 4 * c - 1 <= height <= 4 * c + 2
    requires height <= 8 * p < height + 8 && height - 4 <= 8 * q < height + 4
    requires height - 2 <= 4 * r < height + 2 && height - 1 <= 2 * s < height + 1
    ensures p == a && q == b && r == c && s == height - a - b - c
  {
    var e := 8 * a - height;
    assert p == a;
    assert q == b == if e <= 3 then a else a - 1;
    assert r == c == if e <= 1 then 2 * a else if e <= 5 then 2 * a - 1 else 2 * a - 2;
    assert s == 4 * a - (e + 1) / 2;
  }

  lemma Ceilings(height: nat)
    ensures 8 * Before2(height) - 7 <= height <= 8 * Before2(height)
    ensures 8 * (Before3(height) - Before2(height)) - 3 <= height <= 8 * (Before3(height) - Before2(height)) + 4
    ensures 4 * (Before4(height) - Before3(height)) - 1 <= height <= 4 * (Before4(height) - Before3(height)) + 2
  {
  }

  /** The source row of a line: the inverse of the four passes. */
  function RowOf(height: nat, line: nat): nat {
    if line % 8 == 0 then line / 8
    else if line % 8 == 4 then Before2(height) + line / 8
    else if line % 4 == 2 then Before3(height) + line / 4
    else Before4(height) + line / 2
  }

  /** The bounds that define the pass sizes, without division. */
  lemma PassBounds(height: nat)
    requires !TooLow(height)
    ensures height <= 8 * Before2(height) < height + 8
    ensures height > 1 ==> height - 4 <= 8 * (Before3(height) - Before2(height)) < height + 4
    ensures height > 1 ==> height - 2 <= 4 * (Before4(height) - Before3(height)) < height + 2
    ensures height > 1 ==> height - 1 <= 2 * (height - Before4(height)) < height + 1
    ensures height <= 1 ==> Before2(height) == Before3(height) == Before4(height) == height
  {
    PassLengths(height);
    if height > 1 {
      EveryLength(0, 8, height);
      EveryLength(4, 8, height);
      EveryLength(2, 4, height);
      EveryLength(1, 2, height);
      hide *;
    }
  }

  lemma Residues(j: nat)
    ensures 8 * j % 8 == 0 && 8 * j / 8 == j
    ensures (4 + 8 * j) % 8 == 4 && (4 + 8 * j) / 8 == j
    ensures (2 + 4 * j) % 8 in {2, 6} && (2 + 4 * j) % 4 == 2 && (2 + 4 * j) / 4 == j
    ensures (1 + 2 * j) % 2 == 1 && (1 + 2 * j) / 2 == j
  {
  }

  lemma OddResidues(l: nat)
    requires l % 2 == 1
    ensures l % 8 != 0 && l % 8 != 4 && l % 4 != 2
  {
  }

  lemma RowOfLine(height: nat, row: nat)
    requires !TooLow(height) && row < height
    ensures LineOf(true, height, row) < height && RowOf(height, LineOf(true, height, row)) == row
  {
    PassBounds(height);
    hide Before2, Before3, Before4;
    if row < Before2(height) {
      Residues(row);
    } else if row < Before3(height) {
      Residues(row - Before2(height));
    } else if row < Before4(height) {
      Residues(row - Before3(height));
    } else {
      Residues(row - Before4(height));
      OddResidues(LineOf(true, height, row));
    }
  }

  lemma Quotients(l: nat)
    ensures l % 8 == 0 ==> l == 8 * (l / 8)
    ensures l % 8 == 4 ==> l == 4 + 8 * (l / 8)
    ensures l % 8 != 0 && l % 8 != 4 && l % 4 == 2 ==> l == 2 + 4 * (l / 4)
    ensures l % 8 != 0 && l % 8 != 4 && l % 4 != 2 ==> l == 1 + 2 * (l / 2)
  {
  }

  lemma LineOfRow(height: nat, line: nat)
    requires !TooLow(height) && line < height
    ensures RowOf(height, line) < height && LineOf(true, height, RowOf(height, line)) == line
  {
    PassBounds(height);
    Quotients(line);
    hide Before2, Before3, Before4;
  }

  /** At every height the source row of a line is its place in the order of Appendix E. */
  lemma RowOfIsItsPlace(height: nat, line: nat)
    requires line < height
    ensures |FourPasses(height)| == height && RowOf(height, line) < height
    ensures FourPasses(height)[RowOf(height, line)] == line
  {
    if TooLow(height) {
      LowPasses(height);
    } else {
      LineOfRow(height, line);
      FollowsFourPasses(height, RowOf(height, line));
      hide LineOf, FourPasses, RowOf;
    }
  }

  /** Some source row goes to this line. */
  predicate Filled(interlace: bool, height: nat, line: nat) {
    exists row :: 0 <= row < height && LineOf(interlace, height, row) == line
  }

  /** No two source rows go to the same line, at any height. */
  lemma LinesDiffer(interlace: bool, height: nat, row: nat, row': nat)
    requires row < row' < height
    ensures LineOf(interlace, height, row) != LineOf(interlace, height, row')
  {
    if interlace && !TooLow(height) {
      RowOfLine(height, row);
      RowOfLine(height, row');
    }
  }

  predicate Permutes(interlace: bool, height: nat) {
    && (forall row | 0 <= row < height :: LineOf(interlace, height, row) < height)
    && (forall row, row' | 0 <= row < row' < height ::
          LineOf(interlace, height, row) != LineOf(interlace, height, row'))
    && (forall line | 0 <= line < height :: Filled(interlace, height, line))
  }

  /** The copy loop permutes the lines of the image unless it is interlaced and 2 to 4 lines high. */
  lemma PermutationIff(interlace: bool, height: nat)
    ensures Permutes(interlace, height) <==> !(interlace && TooLow(height))
  {
    if interlace && TooLow(height) {
      assert LineOf(interlace, height, 1) == 4;
    } else {
      forall row | 0 <= row < height
        ensures LineOf(interlace, height, row) < height
      {
        if interlace { RowOfLine(height, row); }
      }
      forall row, row' | 0 <= row < row' < height
        ensures LineOf(interlace, height, row) != LineOf(interlace, height, row')
      {
        LinesDiffer(interlace, height, row, row');
      }
      forall line | 0 <= line < height
        ensures Filled(interlace, height, line)
      {
        if interlace { LineOfRow(height, line); }
        assert LineOf(interlace, height, if interlace then RowOf(height, line) else line) == line;
      }
    }
  }

  /** The copy loop's pass number, line increment and next line, before source row `row`. */
  predicate PassState(height: nat, row: nat, pass: int, inc: int, iline: int) {
    if TooLow(height) then
      (row == 0 && pass == 1 && inc == 8 && iline == 0) || (row == 1 && pass == 1 && inc == 8 && iline == 8) ||
      (row == 2 && pass == 2 && inc == 8 && iline == 12) || (row == 3 && pass == 3 && inc == 4 && iline == 6) ||
      (row == 4 && pass == 4 && inc == 2 && iline == 3)
    else
      (pass == 1 && inc == 8 && iline == 8 * row && row <= Before2(height)) ||
      (pass == 2 && inc == 8 && iline == 4 + 8 * (row - Before2(height)) && Before2(height) < row <= Before3(height)) ||
      (pass == 3 && inc == 4 && iline == 2 + 4 * (row - Before3(height)) && Before3(height) < row <= Before4(height)) ||
      (pass == 4 && inc == 2 && iline == 1 + 2 * (row - Before4(height)) && Before4(height) < row)
  }

  /** One row of the pass bookkeeping: at the end of a pass (but of one pass only) the next begins;
      the row then goes to line `iline'`. */
  lemma PassStep(height: nat, row: nat, pass: int, inc: int, iline: int, pass': int, inc': int, iline': int)
    requires row < height && PassState(height, row, pass, inc, iline)
    requires pass' == if iline >= height then pass + 1 else pass
    requires iline' == if iline < height then iline else if pass' == 2 then 4 else if pass' == 3 then 2
                       else if pass' == 4 then 1 else iline
    requires inc' == if iline < height then inc else if pass' == 3 then 4 else if pass' == 4 then 2 else inc
    ensures iline' == LineOf(true, height, row) && PassState(height, row + 1, pass', inc', iline' + inc')
  {
    if !TooLow(height) {
      PassBounds(height);
      hide Before2, Before3, Before4;
    }
  }
}
