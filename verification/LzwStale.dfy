/** When the pixels of an image depend on what earlier images left in the decoder's arrays. */
module LzwStale {
  import opened Bits
  import opened LzwReference
  import opened LzwArrays
  import opened LzwSteps
  import opened LzwMachine

  /** The cells that this image has written, when its codes have reached up to `high`. */
  predicate Known(m: nat, high: nat, c: int) { 0 <= c < Clear(m) || Clear(m) + 2 <= c < high }

  /** Two machines that agree on all these cells. */
  predicate Alike(m: nat, high: nat, a: Machine, b: Machine) {
    && Sound(m, a) && Sound(m, b) && a.r == b.r && Clear(m) + 2 <= a.r.available <= high <= MAX_CODES
    && (forall c :: 0 <= c < high && Known(m, high, c) ==> a.suffix[c] == b.suffix[c])
    && (forall c :: Clear(m) + 2 <= c < high ==> a.prefix[c] == b.prefix[c] && Known(m, high, a.prefix[c]))
    && (if a.r.oldCode == NULL_CODE then a.r.available == Clear(m) + 2 else Known(m, high, a.r.oldCode))
  }

  lemma {:induction false} WalkAlike(m: nat, high: nat, a: Machine, b: Machine, code: entry, room: nat)
    requires Alike(m, high, a, b) && Known(m, high, code)
    ensures var w := Walk(m, a.prefix, a.suffix, code, room);
            w == Walk(m, b.prefix, b.suffix, code, room) && (w.Bytes? ==> Known(m, high, w.end))
    decreases room
  {
    if code > Clear(m) && room > 0 {
      WalkAlike(m, high, a, b, a.prefix[code], room - 1);
    }
  }

  lemma PushedAlike(m: nat, high: nat, a: Machine, b: Machine, code: entry)
    requires Alike(m, high, a, b) && a.r.oldCode != NULL_CODE
    requires code <= a.r.available && code != Clear(m) && code != Clear(m) + 1
    ensures var w := Pushed(m, a, code);
            w == Pushed(m, b, code) && (w.Bytes? ==> Known(m, high, w.end) && a.suffix[w.end] == b.suffix[w.end])
  {
    if code == a.r.available {
      WalkAlike(m, high, a, b, a.r.oldCode, MAX_STACK_SIZE);
    } else {
      WalkAlike(m, high, a, b, code, MAX_STACK_SIZE + 1);
    }
    hide Walk, Sound;
  }

  /** The highest free code so far. */
  function Raised(high: nat, a: Machine): nat { if a.r.available > high then a.r.available else high }

  lemma AddedAlike(m: nat, high: nat, a: Machine, b: Machine, code: entry, first: byte)
    requires Alike(m, high, a, b) && a.r.oldCode != NULL_CODE && a.r.available < MAX_CODES
    requires code <= a.r.available && code != Clear(m) && code != Clear(m) + 1
    requires Sound(m, Added(a, code, first)) && Sound(m, Added(b, code, first))
    ensures Alike(m, Raised(high, Added(a, code, first)), Added(a, code, first), Added(b, code, first))
  {
    hide CountersOk;
  }

  /** The first code, at the start or after a clear code, is the first free code, which this image
      has not written yet. */
  predicate Unknown(m: nat, high: nat, a: Machine, code: nat) {
    a.r.oldCode == NULL_CODE && code == Clear(m) + 2 == high
  }

  /** Any other code does the same to both machines. */
  lemma StepAlike(m: nat, high: nat, a: Machine, b: Machine, code: entry)
    requires Alike(m, high, a, b) && !Unknown(m, high, a, code)
    ensures var s, t := Step(m, a, code), Step(m, b, code);
            s.sig == t.sig && s.popped == t.popped && (s.sig == Go ==> Alike(m, Raised(high, s.a), s.a, t.a))
  {
    StepSound(m, a, code);
    StepSound(m, b, code);
    if code <= a.r.available && code != Clear(m) && code != Clear(m) + 1 && a.r.oldCode != NULL_CODE {
      PushedAlike(m, high, a, b, code);
      var w := Pushed(m, a, code);
      if w.Bytes? && a.r.available < MAX_STACK_SIZE && |w.bytes| <= MAX_STACK_SIZE {
        AddedAlike(m, high, a, b, code, a.suffix[w.end]);
      }
      hide Alike, Pushed, Sound, Added;
    } else {
      hide Pushed, Walk, CountersOk;
    }
  }

  /** One code ahead, for both machines. */
  predicate SameAhead(m: nat, high: nat, x: Ahead<Machine, Result>, y: Ahead<Machine, Result>) {
    if x.Ends? then y == x
    else
      y.On? && x.out == y.out && x.p == y.p
      && Clear(m) + 2 <= Raised(high, x.next) && Alike(m, Raised(high, x.next), x.next, y.next)
  }

  lemma AdvanceAlike(m: nat, high: nat, data: seq<byte>, p: nat, a: Machine, b: Machine)
    requires Alike(m, high, a, b)
    requires p + a.r.codeSize <= 8 * |data| ==> !Unknown(m, high, a, Slice(data, p, a.r.codeSize))
    ensures Sound(m, a) && Sound(m, b) && SameAhead(m, high, Advance(m, data, p, a), Advance(m, data, p, b))
  {
    CodeFits(m, data, p, a);
    if p + a.r.codeSize <= 8 * |data| {
      StepAlike(m, high, a, b, Slice(data, p, a.r.codeSize));
      StepSound(m, a, Slice(data, p, a.r.codeSize));
    }
    AlikeParts(m, high, a, b);
    hide Alike, Sound, Step, Slice, Unknown;
  }

  lemma AlikeParts(m: nat, high: nat, a: Machine, b: Machine)
    requires Alike(m, high, a, b)
    ensures 2 <= m <= 11 && Clear(m) + 2 <= high && a.r == b.r && Sound(m, a) && Sound(m, b)
  {
  }

  /** Once the image has written a cell, everything follows from the cells it has written. */
  lemma {:induction false} RunAlike(m: nat, high: nat, data: seq<byte>, p: nat, a: Machine, b: Machine)
    requires Alike(m, high, a, b) && Sound(m, a) && Sound(m, b) && high > Clear(m) + 2
    ensures Run(m, data, p, a) == Run(m, data, p, b)
    decreases 8 * |data| - p
  {
    var x, y := Advance(m, data, p, a), Advance(m, data, p, b);
    AdvanceAlike(m, high, data, p, a, b);
    RunOne(m, data, p, a);
    RunOne(m, data, p, b);
    hide Alike, Sound, Advance, Run, Before;
    if x.On? {
      RunAlike(m, Raised(high, x.next), data, x.p, x.next, y.next);
    }
  }

  // ------------------------------------------------------------------ the first codes

  /** A scan of the codes from bit p on, while nothing is written: clear codes, and single literals
      with a clear code after each, until a first code (`first`) is the first free code. `room`
      pixels are missing. */
  predicate FreshFirst(m: nat, data: seq<byte>, p: nat, first: bool, room: nat)
    decreases 8 * |data| - p
  {
    var w := m + 1;
    if room == 0 || p + w > 8 * |data| then false
    else
      var code := Slice(data, p, w);
      if code == Clear(m) then FreshFirst(m, data, p + w, true, room)
      else first && (code == Clear(m) + 2 || (code < Clear(m) && FreshFirst(m, data, p + w, false, room - 1)))
  }

  /** The pixel, counted from here, at which such a scan ends. */
  function FreshPixel(m: nat, data: seq<byte>, p: nat, first: bool, room: nat): (k: nat)
    requires FreshFirst(m, data, p, first, room)
    ensures k < room
    decreases 8 * |data| - p
  {
    var w := m + 1;
    var code := Slice(data, p, w);
    if code == Clear(m) then FreshPixel(m, data, p + w, true, room)
    else if code == Clear(m) + 2 then 0
    else 1 + FreshPixel(m, data, p + w, false, room - 1)
  }

  /** What is shown of a result in an image of n pixels. */
  datatype Cut = Full(pixels: seq<byte>) | Short(pixels: seq<byte>, halt: Halt)

  function Shown(result: Result, n: nat): Cut {
    if |result.out| >= n then Full(result.out[..n]) else Short(result.out, result.halt)
  }

  lemma ShownBefore(s: seq<byte>, x: Result, y: Result, n: nat)
    requires Shown(x, if |s| <= n then n - |s| else 0) == Shown(y, if |s| <= n then n - |s| else 0)
    ensures Shown(Before(s, x), n) == Shown(Before(s, y), n)
  {
    if |s| <= n && |x.out| >= n - |s| {
      assert (s + x.out)[..n] == s + x.out[..n - |s|];
      assert (s + y.out)[..n] == s + y.out[..n - |s|];
    } else if |s| > n {
      assert (s + x.out)[..n] == s[..n] == (s + y.out)[..n];
    }
  }

  /** Before a table entry is made, the codes are of the first width, and each does what the scan
      makes of it. */
  lemma FirstCodes(m: nat, data: seq<byte>, p: nat, a: Machine)
    requires Sound(m, a) && a.r.available == Clear(m) + 2 && p + m + 1 <= 8 * |data|
    ensures a.r.codeSize == m + 1
    ensures var code, x, first := Slice(data, p, m + 1), Advance(m, data, p, a), a.r.oldCode == NULL_CODE;
            if code == Clear(m) then
              x.On? && x.out == [] && x.p == p + m + 1 && x.next.suffix == a.suffix
              && x.next.r.oldCode == NULL_CODE && x.next.r.available == Clear(m) + 2
            else if first && code <= Clear(m) + 2 && code != Clear(m) + 1 then
              code < |a.suffix| && x.On? && x.out == [a.suffix[code]] && x.p == p + m + 1 && x.next.suffix == a.suffix
              && x.next.r.oldCode != NULL_CODE && x.next.r.available == Clear(m) + 2
            else if first then x.Ends?
            else x.On? ==> x.next.r.available == Clear(m) + 3
  {
    hide Pow2, Width, CountersOk, Pushed, Slice, BitAnd;
    FirstWidth(m, a);
    CodeFits(m, data, p, a);
    Pow2Range(m);
  }

  lemma FreshStep(m: nat, data: seq<byte>, p: nat, first: bool, room: nat)
    requires FreshFirst(m, data, p, first, room)
    ensures p + m + 1 <= 8 * |data|
    ensures var code, k := Slice(data, p, m + 1), FreshPixel(m, data, p, first, room);
            if code == Clear(m) then
              FreshFirst(m, data, p + m + 1, true, room) && k == FreshPixel(m, data, p + m + 1, true, room)
            else
              first && if code == Clear(m) + 2 then k == 0
                       else code < Clear(m) && room > 0 && FreshFirst(m, data, p + m + 1, false, room - 1)
                            && k == 1 + FreshPixel(m, data, p + m + 1, false, room - 1)
  {
  }

  predicate HasAt(s: seq<byte>, k: nat, b: byte) { k < |s| && s[k] == b }

  lemma HasLater(out: seq<byte>, rest: Result, k: nat, b: byte)
    requires HasAt(rest.out, k, b)
    ensures HasAt(Before(out, rest).out, |out| + k, b)
  {
  }

  lemma HasHere(b: byte, rest: Result)
    ensures HasAt(Before([b], rest).out, 0, b)
  {
  }

  /** The machine shows the content of that cell. */
  lemma {:induction false} FreshShows(m: nat, data: seq<byte>, p: nat, a: Machine, room: nat)
    requires Sound(m, a) && a.r.available == Clear(m) + 2 && Clear(m) + 2 < |a.suffix|
    requires FreshFirst(m, data, p, a.r.oldCode == NULL_CODE, room)
    ensures HasAt(Run(m, data, p, a).out, FreshPixel(m, data, p, a.r.oldCode == NULL_CODE, room),
                  a.suffix[Clear(m) + 2])
    decreases 8 * |data| - p
  {
    hide *;
    var x, code, first := Advance(m, data, p, a), Slice(data, p, m + 1), a.r.oldCode == NULL_CODE;
    FreshStep(m, data, p, first, room);
    FirstCodes(m, data, p, a);
    RunOne(m, data, p, a);
    var b, rest := a.suffix[Clear(m) + 2], Run(m, data, x.p, x.next);
    if code == Clear(m) + 2 {
      HasHere(b, rest);
    } else {
      FreshShows(m, data, x.p, x.next, if code == Clear(m) then room else room - 1);
      HasLater(x.out, rest, FreshPixel(m, data, p, first, room) - |x.out|, b);
    }
  }

  lemma AlikeStart(m: nat, a: Machine, b: Machine)
    requires Alike(m, Clear(m) + 2, a, b)
    ensures a.r.available == Clear(m) + 2 && a.r == b.r
  {
  }

  lemma NotUnknown(m: nat, data: seq<byte>, p: nat, a: Machine, room: nat)
    requires Sound(m, a) && a.r.available == Clear(m) + 2 && room > 0
    requires !FreshFirst(m, data, p, a.r.oldCode == NULL_CODE, room)
    ensures p + a.r.codeSize <= 8 * |data| ==> !Unknown(m, Clear(m) + 2, a, Slice(data, p, a.r.codeSize))
  {
    FirstWidth(m, a);
    hide Sound, Slice;
  }

  lemma WidthIs(m: nat, r: Registers)
    requires CountersOk(m, r)
    ensures r.codeSize == Width(r.available)
  {
    hide Pow2, Width;
  }

  lemma SoundCounters(m: nat, a: Machine)
    requires Sound(m, a)
    ensures 2 <= m <= 11 && CountersOk(m, a.r)
  {
    hide CountersOk;
  }

  lemma StartCounters(m: nat)
    ensures Start(m).available == Clear(m) + 2 && Start(m).codeSize == m + 1
  {
    hide Pow2;
  }

  lemma FirstWidth(m: nat, a: Machine)
    requires Sound(m, a) && a.r.available == Clear(m) + 2
    ensures a.r.codeSize == m + 1
  {
    hide *;
    SoundCounters(m, a);
    WidthIs(m, a.r);
    CountersStart(m);
    WidthIs(m, Start(m));
    StartCounters(m);
  }

  lemma NextAlike(m: nat, x: Ahead<Machine, Result>, y: Ahead<Machine, Result>)
    requires SameAhead(m, Clear(m) + 2, x, y) && x.On?
    ensures y.On? && x.out == y.out && x.p == y.p && Sound(m, x.next) && Sound(m, y.next)
    ensures x.next.r.available >= Clear(m) + 2 && Alike(m, x.next.r.available, x.next, y.next)
  {
    hide Sound;
  }

  /** The scan goes on with the machine, as long as nothing is written. */
  lemma ScanOn(m: nat, data: seq<byte>, p: nat, a: Machine, room: nat)
    requires Sound(m, a) && a.r.available == Clear(m) + 2 && room > 0
    requires !FreshFirst(m, data, p, a.r.oldCode == NULL_CODE, room)
    requires var x := Advance(m, data, p, a); x.On? && x.next.r.available <= Clear(m) + 2
    ensures var x := Advance(m, data, p, a);
            |x.out| <= room && !FreshFirst(m, data, x.p, x.next.r.oldCode == NULL_CODE, room - |x.out|)
  {
    FirstWidth(m, a);
    EnoughData(m, data, p, a);
    FirstCodes(m, data, p, a);
    hide Sound, Slice, Advance;
  }

  lemma EnoughData(m: nat, data: seq<byte>, p: nat, a: Machine)
    requires Sound(m, a)
    ensures Advance(m, data, p, a).On? ==> p + a.r.codeSize <= 8 * |data|
  {
    hide Sound, Step, Slice;
  }

  /** Without such a first code the pixels are the same, whatever other cells hold. */
  lemma {:induction false} ShownAlike(m: nat, data: seq<byte>, p: nat, a: Machine, b: Machine, room: nat)
    requires Alike(m, Clear(m) + 2, a, b) && Sound(m, a) && Sound(m, b)
    requires !FreshFirst(m, data, p, a.r.oldCode == NULL_CODE, room)
    ensures Shown(Run(m, data, p, a), room) == Shown(Run(m, data, p, b), room)
    decreases 8 * |data| - p
  {
    hide *;
    if room == 0 {
      NothingShown(Run(m, data, p, a));
      NothingShown(Run(m, data, p, b));
      return;
    }
    AlikeStart(m, a, b);
    RunOne(m, data, p, a);
    RunOne(m, data, p, b);
    var x, y := Advance(m, data, p, a), Advance(m, data, p, b);
    NotUnknown(m, data, p, a, room);
    AdvanceAlike(m, Clear(m) + 2, data, p, a, b);
    if x.On? {
      NextAlike(m, x, y);
      var left := if |x.out| <= room then room - |x.out| else 0;
      if x.next.r.available > Clear(m) + 2 {
        RunAlike(m, x.next.r.available, data, x.p, x.next, y.next);
      } else {
        ScanOn(m, data, p, a, room);
        ShownAlike(m, data, x.p, x.next, y.next, left);
      }
      ShownBefore(x.out, Run(m, data, x.p, x.next), Run(m, data, x.p, y.next), room);
    } else {
      SameEnd(m, Clear(m) + 2, x, y);
    }
  }

  lemma SameEnd(m: nat, high: nat, x: Ahead<Machine, Result>, y: Ahead<Machine, Result>)
    requires SameAhead(m, high, x, y) && x.Ends?
    ensures x == y
  {
  }

  lemma NothingShown(result: Result)
    ensures Shown(result, 0) == Full([])
  {
  }

  // ------------------------------------------------------------------ the exact condition

  predicate ArraysOk(prefix: seq<entry>, suffix: seq<byte>) { |prefix| == |suffix| == MAX_CODES }

  /** What an image of n pixels shows, decoded on arrays with these contents. */
  function ShownOn(m: nat, data: seq<byte>, n: nat, prefix: seq<entry>, suffix: seq<byte>): Cut
    requires 2 <= m <= 11 && ArraysOk(prefix, suffix)
  {
    SetUpSound(m, prefix, suffix);
    Shown(Run(m, data, 0, SetUp(m, prefix, suffix)), n)
  }

  lemma StartAlike(m: nat, p: seq<entry>, s: seq<byte>, q: seq<entry>, t: seq<byte>)
    requires 2 <= m <= 11 && ArraysOk(p, s) && ArraysOk(q, t)
    ensures Alike(m, Clear(m) + 2, SetUp(m, p, s), SetUp(m, q, t)) && SetUp(m, p, s).r.oldCode == NULL_CODE
    ensures Sound(m, SetUp(m, p, s)) && Sound(m, SetUp(m, q, t))
  {
    SetUpSound(m, p, s);
    SetUpSound(m, q, t);
    hide CountersOk, Represents;
  }

  ghost predicate Independent(m: nat, data: seq<byte>, n: nat)
    requires 2 <= m <= 11
  {
    forall p, s, q, t :: ArraysOk(p, s) && ArraysOk(q, t) ==> ShownOn(m, data, n, p, s) == ShownOn(m, data, n, q, t)
  }

  lemma ShownDiffers(x: Result, y: Result, k: nat, n: nat, b: byte, c: byte)
    requires HasAt(x.out, k, b) && HasAt(y.out, k, c) && b != c && k < n
    ensures Shown(x, n) != Shown(y, n)
  {
    assert Shown(x, n).pixels[k] == b;
    assert Shown(y, n).pixels[k] == c;
  }

  lemma SetUpCell(m: nat, prefix: seq<entry>, suffix: seq<byte>)
    requires 2 <= m <= 11 && ArraysOk(prefix, suffix)
    ensures Clear(m) + 2 < MAX_CODES && Sound(m, SetUp(m, prefix, suffix))
    ensures var a := SetUp(m, prefix, suffix);
            a.suffix[Clear(m) + 2] == suffix[Clear(m) + 2] && a.r.oldCode == NULL_CODE && a.r.available == Clear(m) + 2
  {
    SetUpSound(m, prefix, suffix);
    hide Sound, Represents;
  }

  /** After such a first code two images differ whose arrays differ in the one cell. */
  lemma CellShows(m: nat, data: seq<byte>, n: nat, prefix: seq<entry>, s: seq<byte>, t: seq<byte>)
    requires 2 <= m <= 11 && ArraysOk(prefix, s) && ArraysOk(prefix, t) && Clear(m) + 2 < MAX_CODES
    requires s[Clear(m) + 2] != t[Clear(m) + 2] && FreshFirst(m, data, 0, true, n)
    ensures ShownOn(m, data, n, prefix, s) != ShownOn(m, data, n, prefix, t)
  {
    SetUpCell(m, prefix, s);
    SetUpCell(m, prefix, t);
    hide Sound, SetUp, FreshFirst, FreshPixel, Run, Shown;
    var a, b := SetUp(m, prefix, s), SetUp(m, prefix, t);
    FreshShows(m, data, 0, a, n);
    FreshShows(m, data, 0, b, n);
    ShownDiffers(Run(m, data, 0, a), Run(m, data, 0, b), FreshPixel(m, data, 0, true, n), n,
                 s[Clear(m) + 2], t[Clear(m) + 2]);
  }

  /** Otherwise they do not. */
  lemma ShownSame(m: nat, data: seq<byte>, n: nat, p: seq<entry>, s: seq<byte>, q: seq<entry>, t: seq<byte>)
    requires 2 <= m <= 11 && ArraysOk(p, s) && ArraysOk(q, t) && !FreshFirst(m, data, 0, true, n)
    ensures ShownOn(m, data, n, p, s) == ShownOn(m, data, n, q, t)
  {
    StartAlike(m, p, s, q, t);
    hide Sound, SetUp, FreshFirst, Run, Shown, Alike, ArraysOk;
    ShownAlike(m, data, 0, SetUp(m, p, s), SetUp(m, q, t), n);
  }

  /** An image shows the same whatever earlier images left in the arrays, exactly when its codes do
      not pass the scan: the only way to see an old byte is a first code, at the start or after a
      clear code, that is the first free code, before the image has made a table entry and before
      it is full. */
  lemma IndependentIff(m: nat, data: seq<byte>, n: nat)
    requires 2 <= m <= 11
    ensures Independent(m, data, n) <==> !FreshFirst(m, data, 0, true, n)
  {
    if FreshFirst(m, data, 0, true, n) {
      CountersStart(m);
      var p, s, t := seq(MAX_CODES, _ => 0 as entry), seq(MAX_CODES, _ => 0 as byte), seq(MAX_CODES, _ => 1 as byte);
      CellShows(m, data, n, p, s, t);
      hide ShownOn;
      assert ArraysOk(p, s) && ArraysOk(p, t);
    } else {
      hide ShownOn, FreshFirst, ArraysOk;
      forall p, s, q, t | ArraysOk(p, s) && ArraysOk(q, t)
        ensures ShownOn(m, data, n, p, s) == ShownOn(m, data, n, q, t)
      {
        ShownSame(m, data, n, p, s, q, t);
      }
    }
  }

  // ------------------------------------------------------------------ against the reference decoder

  /** No table entry was ever made. */
  predicate Untouched(t: Table) { t.extra == [] && t.cell == Unwritten }

  predicate StopsUnwritten(o: Outcome) { o.stop == NotLiteral(Unwritten) }

  lemma UntouchedNext(m: nat, t: Table)
    requires Untouched(t)
    ensures Next(m, t) == Clear(m) + 2 && t.cell == Unwritten
  {
    hide Pow2;
  }

  lemma FirstTable(m: nat, t: Table)
    requires 2 <= m <= 11 && WellFormed(m, t) && Untouched(t)
    ensures Next(m, t) == Clear(m) + 2 < MAX_CODES && Width(Clear(m) + 2) == m + 1 && t.cell == Unwritten
  {
    hide *;
    UntouchedNext(m, t);
    CountersStart(m);
    WidthIs(m, Start(m));
    StartCounters(m);
  }

  lemma AfterUntouched(m: nat, t: Table, code: nat)
    requires 2 <= m <= 11 && WellFormed(m, t) && Untouched(t) && Next(m, t) == Clear(m) + 2 < MAX_CODES
    ensures GoesOn(m, t, code) ==>
              var next := After(m, t, code);
              if code == Clear(m) then Said(m, t, code) == [] && next.prev == [] && Untouched(next)
              else if t.prev == [] then |Said(m, t, code)| == 1 && next.prev != [] && Untouched(next)
              else !Untouched(next)
  {
    hide Pow2;
  }

  lemma CodeOne(m: nat, data: seq<byte>, p: nat, t: Table)
    requires 2 <= m <= 11 && WellFormed(m, t) && Untouched(t)
    ensures var y := Foresee(m, data, p, t);
            if p + m + 1 > 8 * |data| then y.Ends? && !StopsUnwritten(y.end)
            else
              var code := Slice(data, p, m + 1);
              if code == Clear(m) then
                y.On? && y.out == [] && y.p == p + m + 1 && y.next.prev == [] && Untouched(y.next)
              else if t.prev == [] && code == Clear(m) + 2 then y.Ends? && StopsUnwritten(y.end) && y.end.out == []
              else if t.prev == [] && code < Clear(m) then
                y.On? && |y.out| == 1 && y.p == p + m + 1 && y.next.prev != [] && Untouched(y.next)
              else if y.Ends? then !StopsUnwritten(y.end) else !Untouched(y.next) && y.p > p
  {
    FirstTable(m, t);
    if p + m + 1 <= 8 * |data| {
      AfterUntouched(m, t, Slice(data, p, m + 1));
    }
    hide Untouched, Slice, Width, Said, After, Next, Pow2;
  }

  /** A table entry once made, no later first code is met with its cell unwritten. */
  lemma {:induction false} NeverUnwritten(m: nat, data: seq<byte>, p: nat, t: Table)
    requires 2 <= m <= 11 && WellFormed(m, t) && !Untouched(t)
    ensures !StopsUnwritten(Decode(m, data, p, t, false))
    decreases 8 * |data| - p
  {
    DecodeOne(m, data, p, t);
    StaysTouched(m, data, p, t);
    hide Decode, Foresee, Untouched, WellFormed;
    var y := Foresee(m, data, p, t);
    if y.On? {
      NeverUnwritten(m, data, y.p, y.next);
    }
  }

  lemma StaysTouched(m: nat, data: seq<byte>, p: nat, t: Table)
    requires 2 <= m <= 11 && WellFormed(m, t) && !Untouched(t)
    ensures var y := Foresee(m, data, p, t);
            if y.Ends? then !StopsUnwritten(y.end) else !Untouched(y.next) && p < y.p <= 8 * |data|
  {
    WidthRange(m, t);
    assert t.extra != [] ==> t.extra[0] in t.extra;
    hide Slice, Width;
  }

  /** The reference decoder stops, before the image is full, at a first code whose cell is unwritten
      exactly when the codes pass the scan; the scan's pixel is the next one. */
  lemma {:induction false} UnwrittenIff(m: nat, data: seq<byte>, p: nat, t: Table, room: nat)
    requires 2 <= m <= 11 && WellFormed(m, t) && Untouched(t)
    ensures var o := Decode(m, data, p, t, false);
            (StopsUnwritten(o) && |o.out| < room <==> FreshFirst(m, data, p, t.prev == [], room))
            && (FreshFirst(m, data, p, t.prev == [], room) ==> FreshPixel(m, data, p, t.prev == [], room) == |o.out|)
    decreases 8 * |data| - p
  {
    hide *;
    var y, first := Foresee(m, data, p, t), t.prev == [];
    CodeOne(m, data, p, t);
    DecodeOne(m, data, p, t);
    FreshUnfold(m, data, p, first, room);
    if FreshFirst(m, data, p, first, room) {
      FreshStep(m, data, p, first, room);
    }
    if y.On? {
      var rest := Decode(m, data, y.p, y.next, false);
      StopsLater(y.out, rest);
      if Untouched(y.next) {
        UnwrittenIff(m, data, y.p, y.next, if |y.out| <= room then room - |y.out| else 0);
      } else {
        NeverUnwritten(m, data, y.p, y.next);
      }
    }
  }

  lemma StopsLater(s: seq<byte>, o: Outcome)
    ensures StopsUnwritten(Then(s, o)) == StopsUnwritten(o) && |Then(s, o).out| == |s| + |o.out|
  {
  }

  lemma FreshUnfold(m: nat, data: seq<byte>, p: nat, first: bool, room: nat)
    ensures FreshFirst(m, data, p, first, room) ==
            if room == 0 || p + m + 1 > 8 * |data| then false
            else
              var code := Slice(data, p, m + 1);
              if code == Clear(m) then FreshFirst(m, data, p + m + 1, true, room)
              else
                first &&
                (code == Clear(m) + 2 || (code < Clear(m) && FreshFirst(m, data, p + m + 1, false, room - 1)))
  {
  }
}
