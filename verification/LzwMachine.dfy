/** The image decoder as a machine on its arrays and counters, without the stack: what every code
    does to them, whatever the arrays hold. It refines the reference decoder. */
module LzwMachine {
  import opened Bits
  import opened LzwReference
  import opened LzwArrays
  import opened LzwSteps

  /** `Threw` is the exception that a store past the end of the pixel stack raises. */
  datatype Signal = Go | Stopped | Threw

  datatype Machine = Machine(r: Registers, prefix: seq<entry>, suffix: seq<byte>)

  /** The ranges that every code keeps. */
  predicate Sound(m: nat, a: Machine) {
    && 2 <= m <= 11 && Clear(m) + 2 < MAX_CODES && |a.prefix| == |a.suffix| == MAX_CODES
    && CountersOk(m, a.r) && NULL_CODE <= a.r.oldCode < MAX_CODES && a.r.first < MAX_CODES
  }

  /** The bytes that a walk along the prefixes pushes, in the order in which they are popped, and
      the code at which it ends; `Overrun` if there are more than the stack has room for. */
  datatype Walked = Overrun | Bytes(bytes: seq<byte>, end: entry)

  function Walk(m: nat, prefix: seq<entry>, suffix: seq<byte>, code: entry, room: nat): (w: Walked)
    requires |prefix| == |suffix| == MAX_CODES
    ensures w.Bytes? ==> |w.bytes| <= room && w.end <= Clear(m)
    decreases room
  {
    if code <= Clear(m) then Bytes([], code)
    else if room == 0 then Overrun
    else
      match Walk(m, prefix, suffix, prefix[code], room - 1)
      case Overrun => Overrun
      case Bytes(bytes, end) => Bytes(bytes + [suffix[code]], end)
  }

  /** What a code that follows another pushes, but for the first byte of its string. */
  function Pushed(m: nat, a: Machine, code: entry): (w: Walked)
    requires Sound(m, a) && a.r.oldCode != NULL_CODE
    ensures w.Bytes? ==> |w.bytes| <= MAX_STACK_SIZE + 1
  {
    if code == a.r.available then
      match Walk(m, a.prefix, a.suffix, a.r.oldCode, MAX_STACK_SIZE)
      case Overrun => Overrun
      case Bytes(bytes, end) => Bytes(bytes + [a.r.first % 256], end)
    else Walk(m, a.prefix, a.suffix, code, MAX_STACK_SIZE + 1)
  }

  /** The machine after a code, and the pixels that the code pops. */
  datatype Stepped = Stepped(sig: Signal, popped: seq<byte>, a: Machine)

  function Added(a: Machine, code: entry, first: byte): Machine
    requires |a.prefix| == |a.suffix| == MAX_CODES && a.r.available < MAX_CODES && 0 <= a.r.oldCode < MAX_CODES
  {
    Machine(Grown(a.r).(oldCode := code, first := first),
            a.prefix[a.r.available := a.r.oldCode], a.suffix[a.r.available := first])
  }

  function DataCode(m: nat, a: Machine, code: entry): Stepped
    requires Sound(m, a) && a.r.oldCode != NULL_CODE
  {
    match Pushed(m, a, code)
    case Overrun => Stepped(Threw, [], a)
    case Bytes(bytes, end) =>
      var first := a.suffix[end];
      if a.r.available >= MAX_STACK_SIZE then Stepped(Stopped, [], a)
      else if |bytes| == MAX_STACK_SIZE + 1 then Stepped(Threw, [], a)
      else Stepped(Go, [first] + bytes, Added(a, code, first))
  }

  function Step(m: nat, a: Machine, code: entry): Stepped
    requires Sound(m, a)
  {
    if code > a.r.available || code == Clear(m) + 1 then Stepped(Stopped, [], a)
    else if code == Clear(m) then Stepped(Go, [], a.(r := Reset(m, a.r)))
    else if a.r.oldCode == NULL_CODE then
      Stepped(Go, [a.suffix[code]], a.(r := a.r.(oldCode := code, first := code)))
    else DataCode(m, a, code)
  }

  lemma StepSound(m: nat, a: Machine, code: entry)
    requires Sound(m, a)
    ensures Sound(m, Step(m, a, code).a)
  {
    CountersStart(m);
    if a.r.available < MAX_CODES {
      GrownOk(m, a.r);
    }
    hide Walk, Pow2, Width;
  }

  /** How the machine ends. */
  datatype Halt = DataOver | Halted | Thrown

  datatype Result = Result(out: seq<byte>, halt: Halt)

  function Before(out: seq<byte>, rest: Result): Result { Result(out + rest.out, rest.halt) }

  /** One code ahead: the end, or pixels and what to go on with. */
  datatype Ahead<State, End> = Ends(end: End) | On(out: seq<byte>, p: nat, next: State)

  function Advance(m: nat, data: seq<byte>, p: nat, a: Machine): (x: Ahead<Machine, Result>)
    requires Sound(m, a)
    ensures x.On? ==> Sound(m, x.next) && p < x.p <= 8 * |data|
  {
    var w := a.r.codeSize;
    if p + w > 8 * |data| then Ends(Result([], DataOver))
    else
      CodeFits(m, data, p, a);
      var step := Step(m, a, Slice(data, p, w));
      StepSound(m, a, Slice(data, p, w));
      match step.sig
      case Stopped => Ends(Result([], Halted))
      case Threw => Ends(Result([], Thrown))
      case Go => On(step.popped, p + w, step.a)
  }

  /** Decodes `data` from bit p on. */
  function Run(m: nat, data: seq<byte>, p: nat, a: Machine): Result
    requires Sound(m, a)
    decreases 8 * |data| - p
  {
    match Advance(m, data, p, a)
    case Ends(result) => result
    case On(out, q, next) => Before(out, Run(m, data, q, next))
  }

  lemma CodeFits(m: nat, data: seq<byte>, p: nat, a: Machine)
    requires Sound(m, a)
    ensures 1 <= a.r.codeSize <= 12 && Slice(data, p, a.r.codeSize) < MAX_CODES
    ensures a.r.codeMask == Pow2(a.r.codeSize) - 1
  {
    CountersRange(m, a.r);
    LowBound(Shr(LittleEndian(data), p), a.r.codeSize);
    Pow2Values();
    Pow2Less(a.r.codeSize, 12);
  }

  /** The machine that decoding an image of code size m starts, on arrays with these contents. */
  function SetUp(m: nat, prefix: seq<entry>, suffix: seq<byte>): (a: Machine)
    requires 2 <= m <= 11 && |prefix| == |suffix| == MAX_CODES
    ensures |a.prefix| == |a.suffix| == MAX_CODES
  {
    Machine(Start(m), seq(MAX_CODES, c requires 0 <= c < MAX_CODES => if c < Clear(m) then 0 else prefix[c]),
            seq(MAX_CODES, c requires 0 <= c < MAX_CODES => if c < Clear(m) then c % 256 else suffix[c]))
  }

  lemma SetUpSound(m: nat, prefix: seq<entry>, suffix: seq<byte>)
    requires 2 <= m <= 11 && |prefix| == |suffix| == MAX_CODES
    ensures Sound(m, SetUp(m, prefix, suffix)) && Clear(m) + 2 < MAX_CODES
    ensures var a := SetUp(m, prefix, suffix);
            Represents(m, a.r, a.prefix, a.suffix, EMPTY_TABLE, suffix[Clear(m) + 2])
  {
    CountersStart(m);
    var a := SetUp(m, prefix, suffix);
    StartOk(m, a.prefix, a.suffix);
    hide Represents, CountersOk;
  }

  // ------------------------------------------------------------------ refinement

  /** The walk pushes the string s, but for its first byte, which is that of the code at its end. */
  predicate Spells(m: nat, s: seq<byte>, w: Walked, suffix: seq<byte>) {
    w.Bytes? && w.end < Clear(m) && w.end < |suffix| && s == [suffix[w.end]] + w.bytes
  }

  lemma WalkLiteral(m: nat, prefix: seq<entry>, suffix: seq<byte>, code: entry, room: nat)
    requires |prefix| == |suffix| == MAX_CODES && code < Clear(m)
    ensures Spells(m, [suffix[code]], Walk(m, prefix, suffix, code, room), suffix)
  {
  }

  lemma WalkOn(m: nat, prefix: seq<entry>, suffix: seq<byte>, code: entry, room: nat, s: seq<byte>)
    requires |prefix| == |suffix| == MAX_CODES && code > Clear(m) && room > 0
    requires Spells(m, s, Walk(m, prefix, suffix, prefix[code], room - 1), suffix)
    ensures Spells(m, s + [suffix[code]], Walk(m, prefix, suffix, code, room), suffix)
  {
    var w := Walk(m, prefix, suffix, prefix[code], room - 1);
    assert [suffix[w.end]] + w.bytes + [suffix[code]] == [suffix[w.end]] + (w.bytes + [suffix[code]]);
  }

  lemma WalkSizes(m: nat, prefix: seq<entry>, suffix: seq<byte>, extra: seq<seq<byte>>, code: nat)
    requires TableOk(m, prefix, suffix, extra) && IsCode(m, extra, code)
    ensures |prefix| == |suffix| == MAX_CODES == 4096 && code != Clear(m)
  {
  }

  /** A walk in a well-formed table gives the string of its code. */
  lemma {:induction false} WalkIsLookup(m: nat, prefix: seq<entry>, suffix: seq<byte>, extra: seq<seq<byte>>,
                                        code: entry, room: nat)
    requires TableOk(m, prefix, suffix, extra) && IsCode(m, extra, code) && |Lookup(m, extra, code)| <= room + 1
    ensures |prefix| == |suffix| == MAX_CODES
    ensures Spells(m, Lookup(m, extra, code), Walk(m, prefix, suffix, code, room), suffix)
    decreases room
  {
    hide *;
    WalkSizes(m, prefix, suffix, extra, code);
    WalkStep(m, prefix, suffix, extra, code);
    if code > Clear(m) {
      NotEmpty(m, prefix, suffix, extra, prefix[code]);
      WalkIsLookup(m, prefix, suffix, extra, prefix[code], room - 1);
      WalkOn(m, prefix, suffix, code, room, Lookup(m, extra, prefix[code]));
    } else {
      WalkLiteral(m, prefix, suffix, code, room);
    }
  }

  lemma NotEmpty(m: nat, prefix: seq<entry>, suffix: seq<byte>, extra: seq<seq<byte>>, code: nat)
    requires TableOk(m, prefix, suffix, extra) && IsCode(m, extra, code)
    ensures |Lookup(m, extra, code)| >= 1
  {
    WalkStep(m, prefix, suffix, extra, code);
  }

  predicate Follows(m: nat, a: Machine, t: Table, stale: byte) {
    Represents(m, a.r, a.prefix, a.suffix, t, stale)
  }

  lemma FollowsSound(m: nat, a: Machine, t: Table, stale: byte)
    requires Follows(m, a, t, stale)
    ensures Sound(m, a) && WellFormed(m, t) && a.r.available == Next(m, t) && a.r.codeSize == Width(Next(m, t))
    ensures a.r.oldCode == NULL_CODE <==> t.prev == []
  {
  }

  /** What a data code pushes is its string but for the first byte, and that byte comes from the
      code at which the walk ends. */
  lemma PushedIsString(m: nat, a: Machine, t: Table, stale: byte, code: entry)
    requires Follows(m, a, t, stale) && Sound(m, a) && a.r.oldCode != NULL_CODE && WellFormed(m, t) && t.prev != []
    requires code <= Next(m, t) && code != Clear(m) && code != Clear(m) + 1
    ensures var w := Pushed(m, a, code);
            w.Bytes? && StringOf(m, t, code) == [a.suffix[w.end]] + w.bytes && |w.bytes| < MAX_STACK_SIZE
  {
    StringParts(m, a.r, a.prefix, a.suffix, t, stale, code);
    assert TableOk(m, a.prefix, a.suffix, t.extra) && IsCode(m, t.extra, a.r.oldCode) && a.r.available == Next(m, t);
    hide Represents, TableOk, Lookup, StringOf, IsCode, CountersOk, WellFormed, Walk;
    if code == a.r.available {
      WalkIsLookup(m, a.prefix, a.suffix, t.extra, a.r.oldCode, MAX_STACK_SIZE);
      var w := Walk(m, a.prefix, a.suffix, a.r.oldCode, MAX_STACK_SIZE);
      assert [a.suffix[w.end]] + w.bytes + [a.r.first % 256] == [a.suffix[w.end]] + (w.bytes + [a.r.first % 256]);
    } else {
      WalkIsLookup(m, a.prefix, a.suffix, t.extra, code, MAX_STACK_SIZE + 1);
    }
  }

  /** The reference decoder goes on after this code. */
  predicate GoesOn(m: nat, t: Table, code: nat) {
    code <= Next(m, t) && code != Clear(m) + 1 &&
    (code == Clear(m) || (if t.prev == [] then code < Clear(m) else Next(m, t) < MAX_CODES))
  }

  predicate NonLiteral(m: nat, t: Table, code: nat) { t.prev == [] && Clear(m) + 1 < code <= Next(m, t) }

  lemma ClearRefines(m: nat, a: Machine, t: Table, stale: byte)
    requires Follows(m, a, t, stale)
    ensures Follows(m, a.(r := Reset(m, a.r)), Cleared(t), stale)
  {
    ClearStep(m, a.r, a.prefix, a.suffix, t, stale);
  }

  lemma FirstRefines(m: nat, a: Machine, t: Table, stale: byte, code: entry)
    requires Follows(m, a, t, stale) && a.r.oldCode == NULL_CODE
    requires code <= a.r.available && code != Clear(m) && code != Clear(m) + 1 && |a.suffix| == MAX_CODES
    ensures code < Clear(m) ==>
              Follows(m, a.(r := a.r.(oldCode := code, first := code)), t.(prev := [code % 256]), stale)
    ensures a.suffix[code] == if code < Clear(m) then code % 256 else CellValue(t.cell, stale)
  {
    FirstStep(m, a.r, a.prefix, a.suffix, t, stale, code);
  }

  lemma DataRefines(m: nat, a: Machine, t: Table, stale: byte, code: entry)
    requires Follows(m, a, t, stale) && Sound(m, a) && a.r.oldCode != NULL_CODE && WellFormed(m, t) && t.prev != []
    requires code <= Next(m, t) && code != Clear(m) && code != Clear(m) + 1 && a.r.available == Next(m, t)
    ensures var s := DataCode(m, a, code);
            if Next(m, t) == MAX_CODES then s.sig == Stopped
            else
              s.sig == Go && s.popped == StringOf(m, t, code) &&
              Follows(m, s.a, Learned(m, t, StringOf(m, t, code)), stale)
  {
    PushedIsString(m, a, t, stale, code);
    if Next(m, t) < MAX_CODES {
      DataStep(m, a.r, a.prefix, a.suffix, t, stale, code);
    }
    hide Represents, CountersOk, StringOf, Learned, Pushed, Grown;
  }

  /** What a code does to the machine is what the reference decoder makes of it. */
  lemma StepRefines(m: nat, a: Machine, t: Table, stale: byte, code: entry)
    requires Follows(m, a, t, stale) && Sound(m, a) && WellFormed(m, t)
    ensures var s := Step(m, a, code);
            if GoesOn(m, t, code) then
              s.sig == Go && s.popped == Said(m, t, code) && Follows(m, s.a, After(m, t, code), stale)
            else if NonLiteral(m, t, code) then s.sig == Go && s.popped == [CellValue(t.cell, stale)]
            else s.sig == Stopped
  {
    FollowsSound(m, a, t, stale);
    hide Follows, Sound, WellFormed, DataCode, Learned, StringOf, Cleared;
    if code <= a.r.available && code != Clear(m) + 1 {
      if code == Clear(m) {
        ClearRefines(m, a, t, stale);
      } else if t.prev == [] {
        FirstRefines(m, a, t, stale, code);
      } else {
        DataRefines(m, a, t, stale, code);
      }
    }
  }

  /** One code of the reference decoder. */
  function Foresee(m: nat, data: seq<byte>, p: nat, t: Table): (x: Ahead<Table, Outcome>)
    requires 2 <= m <= 11 && WellFormed(m, t)
    ensures x.On? ==> WellFormed(m, x.next)
  {
    var w := Width(Next(m, t));
    if p + w > 8 * |data| then Ends(Outcome([], OutOfData))
    else
      var code := Slice(data, p, w);
      if GoesOn(m, t, code) then On(Said(m, t, code), p + w, After(m, t, code))
      else if NonLiteral(m, t, code) then Ends(Outcome([], NotLiteral(t.cell)))
      else if code > Next(m, t) then Ends(Outcome([], UnknownCode))
      else Ends(Outcome([], if code == Clear(m) + 1 then EndCode else TableFull))
  }

  lemma DecodeOne(m: nat, data: seq<byte>, p: nat, t: Table)
    requires 2 <= m <= 11 && WellFormed(m, t)
    ensures match Foresee(m, data, p, t)
            case Ends(o) => Decode(m, data, p, t, false) == o
            case On(said, q, next) => Decode(m, data, p, t, false) == Then(said, Decode(m, data, q, next, false))
  {
    hide Width, Slice, StringOf, Learned;
    var w := Width(Next(m, t));
    if p + w <= 8 * |data| && Slice(data, p, w) == Clear(m) {
      NothingFirst(Decode(m, data, p + w, Cleared(t), false));
    }
  }

  lemma NothingFirst(o: Outcome)
    ensures Then([], o) == o
  {
    assert [] + o.out == o.out;
  }

  /** The machine's result is the reference decoder's outcome; after a first code that stands for
      nothing, it has the content of that code's cell next. */
  predicate Refines(result: Result, o: Outcome, stale: byte) {
    if o.stop.NotLiteral? then o.out + [CellValue(o.stop.cell, stale)] <= result.out
    else result.out == o.out && !result.halt.Thrown? && (result.halt.DataOver? <==> o.stop.OutOfData?)
  }

  lemma RefinesBefore(s: seq<byte>, result: Result, o: Outcome, stale: byte)
    requires Refines(result, o, stale)
    ensures Refines(Before(s, result), Then(s, o), stale)
  {
    if o.stop.NotLiteral? {
      var more := result.out[|o.out| + 1..];
      assert result.out == o.out + [CellValue(o.stop.cell, stale)] + more;
      assert s + result.out == s + o.out + [CellValue(o.stop.cell, stale)] + more;
    }
  }

  lemma RefinesEnd(result: Result, o: Outcome, stale: byte)
    requires if o.stop.NotLiteral? then o.out == [] && [CellValue(o.stop.cell, stale)] <= result.out
             else result.out == o.out == [] && !result.halt.Thrown? && (result.halt.DataOver? <==> o.stop.OutOfData?)
    ensures Refines(result, o, stale)
  {
    if o.stop.NotLiteral? {
      assert [] + [CellValue(o.stop.cell, stale)] == [CellValue(o.stop.cell, stale)];
    }
  }

  /** One code of both. */
  predicate Keeps(m: nat, x: Ahead<Machine, Result>, y: Ahead<Table, Outcome>, stale: byte) {
    match y
    case On(said, q, t) => x.On? && x.out == said && x.p == q && Follows(m, x.next, t, stale)
    case Ends(o) =>
      if o.stop.NotLiteral? then o.out == [] && x.On? && x.out == [CellValue(o.stop.cell, stale)]
      else x.Ends? && x.end.out == o.out == [] && !x.end.halt.Thrown? && (x.end.halt.DataOver? <==> o.stop.OutOfData?)
  }

  lemma AdvanceRefines(m: nat, data: seq<byte>, p: nat, a: Machine, t: Table, stale: byte)
    requires Follows(m, a, t, stale) && Sound(m, a) && WellFormed(m, t) && 2 <= m <= 11
    ensures Keeps(m, Advance(m, data, p, a), Foresee(m, data, p, t), stale)
  {
    FollowsSound(m, a, t, stale);
    CodeFits(m, data, p, a);
    if p + a.r.codeSize <= 8 * |data| {
      StepRefines(m, a, t, stale, Slice(data, p, a.r.codeSize));
    }
    hide Follows, Sound, WellFormed, Step, GoesOn, NonLiteral, Said, After, Slice, Width;
  }

  /** The result of a run, from one code ahead. */
  lemma RunOne(m: nat, data: seq<byte>, p: nat, a: Machine)
    requires Sound(m, a)
    ensures match Advance(m, data, p, a)
            case Ends(result) => Run(m, data, p, a) == result
            case On(out, q, next) => Run(m, data, p, a) == Before(out, Run(m, data, q, next))
  {
    hide Advance, Sound;
  }

  lemma StaleNext(x: Ahead<Machine, Result>, result: Result, rest: Result, o: Outcome, stale: byte)
    requires o.out == [] && o.stop.NotLiteral? && x.On? && x.out == [CellValue(o.stop.cell, stale)]
    requires result == Before(x.out, rest)
    ensures Refines(result, o, stale)
  {
    RefinesEnd(result, o, stale);
  }

  lemma {:induction false} RunRefines(m: nat, data: seq<byte>, p: nat, a: Machine, t: Table, stale: byte)
    requires Follows(m, a, t, stale) && Sound(m, a) && WellFormed(m, t) && 2 <= m <= 11
    ensures Refines(Run(m, data, p, a), Decode(m, data, p, t, false), stale)
    decreases 8 * |data| - p
  {
    var x, y := Advance(m, data, p, a), Foresee(m, data, p, t);
    DecodeOne(m, data, p, t);
    RunOne(m, data, p, a);
    AdvanceRefines(m, data, p, a, t, stale);
    hide Advance, Foresee, Follows, Sound, WellFormed, Decode, Run, Refines, CellValue, Then, Before;
    match y
    case On(said, q, t') =>
      RunRefines(m, data, q, x.next, t', stale);
      RefinesBefore(said, Run(m, data, q, x.next), Decode(m, data, q, t', false), stale);
    case Ends(o) =>
      if o.stop.NotLiteral? {
        StaleNext(x, Run(m, data, p, a), Run(m, data, x.p, x.next), o, stale);
      } else {
        RefinesEnd(Run(m, data, p, a), o, stale);
      }
  }
}
