/** The compressor of Appendix F of the GIF89a specification, and the proof that the decoder undoes
    it: its table, its free code and its code size are counted here, without a look at the decoder. */
module LzwEncoder {
  import opened Bits
  import opened LzwReference
  import opened LzwArrays
  import opened LzwMachine
  import LzwTheorems

  /** A code, and the number of bits it is written with. */
  datatype Code = Code(value: nat, size: nat)

  /** The place of w in the table; the table's length if it is not there. */
  function IndexOf(table: seq<seq<byte>>, w: seq<byte>): (i: nat)
    ensures i <= |table| && (w in table <==> i < |table|)
    ensures i < |table| ==> table[i] == w
  {
    if table == [] then 0 else if table[0] == w then 0 else 1 + IndexOf(table[1..], w)
  }

  function CodeOf(m: nat, table: seq<seq<byte>>, w: seq<byte>): nat
    requires w != []
  {
    if |w| == 1 then w[0] else Pow2(m) + 2 + IndexOf(table, w)
  }

  /** The code size after a code: one bit more when the first free code does not fit. */
  function SizeAfter(m: nat, table: seq<seq<byte>>, size: nat): nat {
    if Pow2(m) + 2 + |table| == Pow2(size) && size < 12 then size + 1 else size
  }

  /** Compresses w and then rest; w is a single pixel or in the table. When the table is full a clear
      code takes the place of a new entry. */
  function EncodeFrom(m: nat, table: seq<seq<byte>>, size: nat, w: seq<byte>, rest: seq<byte>): seq<Code>
    requires w != []
    decreases |rest|
  {
    var code, next := Code(CodeOf(m, table, w), size), SizeAfter(m, table, size);
    if rest == [] then [code] + [Code(Pow2(m) + 1, next)]
    else
      var longer := w + [rest[0]];
      if longer in table then EncodeFrom(m, table, size, longer, rest[1..])
      else if Pow2(m) + 2 + |table| < 4096 then
        [code] + EncodeFrom(m, table + [longer], next, [rest[0]], rest[1..])
      else [code] + ([Code(Pow2(m), next)] + EncodeFrom(m, [], m + 1, [rest[0]], rest[1..]))
  }

  /** Compresses the pixels of an image: a clear code, the strings, and the end code. */
  function Encode(m: nat, pixels: seq<byte>): seq<Code> {
    [Code(Pow2(m), m + 1)] +
    if pixels == [] then [Code(Pow2(m) + 1, m + 1)] else EncodeFrom(m, [], m + 1, [pixels[0]], pixels[1..])
  }

  // ------------------------------------------------------------------ codes to bytes

  function BitCount(codes: seq<Code>): nat {
    if codes == [] then 0 else codes[0].size + BitCount(codes[1..])
  }

  /** The codes as one number, the first code in its lowest bits. */
  function Packed(codes: seq<Code>): nat {
    if codes == [] then 0 else codes[0].value + Shl(Packed(codes[1..]), codes[0].size)
  }

  function Digits(n: nat, len: nat): (s: seq<byte>)
    ensures |s| == len
  {
    if len == 0 then [] else [n % 256] + Digits(n / 256, len - 1)
  }

  /** The bytes of the codes: the digits of the number, lowest first. */
  function BytesOf(codes: seq<Code>): seq<byte> { Digits(Packed(codes), (BitCount(codes) + 7) / 8) }

  predicate AllFit(codes: seq<Code>) { forall i :: 0 <= i < |codes| ==> codes[i].value < Pow2(codes[i].size) }

  lemma {:induction false} DigitsBack(n: nat, len: nat)
    requires n < Pow2(8 * len)
    ensures LittleEndian(Digits(n, len)) == n
    decreases len
  {
    if len > 0 {
      Pow2Byte(8 * (len - 1));
      DigitsBack(n / 256, len - 1);
    }
  }

  lemma {:induction false} PackedBound(codes: seq<Code>)
    requires AllFit(codes)
    ensures Packed(codes) < Pow2(BitCount(codes))
  {
    if codes != [] {
      PackedBound(codes[1..]);
      ShlAdds(codes[0].value, Packed(codes[1..]), codes[0].size, BitCount(codes[1..]));
    }
  }

  lemma {:induction false} ShlAdds(x: nat, y: nat, a: nat, b: nat)
    requires x < Pow2(a) && y < Pow2(b)
    ensures x + Shl(y, a) < Pow2(a + b)
    decreases a
  {
    if a > 0 {
      ShlAdds(x / 2, y, a - 1, b);
    }
  }

  /** From bit p on, the data hold these codes. */
  predicate Left(data: seq<byte>, p: nat, codes: seq<Code>) {
    Shr(LittleEndian(data), p) == Packed(codes) && p + BitCount(codes) <= 8 * |data| && AllFit(codes)
  }

  lemma StartLeft(codes: seq<Code>)
    requires AllFit(codes)
    ensures Left(BytesOf(codes), 0, codes)
  {
    var len := (BitCount(codes) + 7) / 8;
    PackedBound(codes);
    Pow2Less(BitCount(codes), 8 * len);
    DigitsBack(Packed(codes), len);
    hide Packed, BitCount, Digits, LittleEndian, AllFit, Pow2;
  }

  /** Reading a code off the data gives its value, and leaves the others. */
  lemma ReadCode(data: seq<byte>, p: nat, codes: seq<Code>)
    requires Left(data, p, codes) && codes != []
    ensures p + codes[0].size <= 8 * |data| && Slice(data, p, codes[0].size) == codes[0].value
    ensures Left(data, p + codes[0].size, codes[1..])
  {
    var c, more := codes[0], Packed(codes[1..]);
    ShrTwice(LittleEndian(data), p, c.size);
    LowOfSum(c.value, more, c.size, c.size);
    LowSmall(c.value, c.size);
    ShrOfSum(c.value, more, c.size, c.size);
    ShrBound(c.value, c.size, 0);
    hide Shr, Low, LittleEndian;
  }

  // ------------------------------------------------------------------ widths

  /** The width of the next code is the least that holds the first free code, 12 at most. */
  predicate HoldsFree(size: nat, free: nat) {
    (free < 4096 ==> size >= 1 && Pow2(size - 1) <= free < Pow2(size)) && (free == 4096 ==> size == 12)
  }

  lemma WidthHoldsFree(free: nat)
    requires 1 <= free <= 4096
    ensures HoldsFree(Width(free), free)
  {
    if free < MAX_CODES {
      BitLengthBounds(free);
    }
  }

  /** No other number is such a width. */
  lemma HeldByOne(size: nat, free: nat)
    requires 1 <= free <= 4096 && HoldsFree(size, free)
    ensures size == Width(free)
  {
    if free < MAX_CODES {
      BitLengthUnique(free, size);
    }
  }

  /** The machine after k more codes, if the data does not end before. */
  function Later(m: nat, data: seq<byte>, p: nat, a: Machine, k: nat): (x: Ahead<Machine, Result>)
    requires Sound(m, a)
    ensures x.On? ==> Sound(m, x.next)
    decreases k
  {
    if k == 0 then On([], p, a)
    else
      match Advance(m, data, p, a)
      case Ends(result) => Ends(result)
      case On(_, q, next) => Later(m, data, q, next, k - 1)
  }

  /** In every machine that a run reaches, whatever the data, the code size and the old contents of the
      arrays, the next code is read with the bits of the first free code, and with 12 when there is none. */
  lemma ReachedWidths(m: nat, data: seq<byte>, prefix: seq<entry>, suffix: seq<byte>, k: nat)
    requires 2 <= m <= 11 && |prefix| == |suffix| == 4096
    ensures Sound(m, SetUp(m, prefix, suffix))
    ensures var x := Later(m, data, 0, SetUp(m, prefix, suffix), k);
            x.On? ==>
              var r := x.next.r;
              Pow2(m) + 2 <= r.available <= 4096 && r.codeMask == Pow2(r.codeSize) - 1
              && (r.available < 4096 ==> r.codeSize >= 1 && Pow2(r.codeSize - 1) <= r.available < Pow2(r.codeSize))
              && (r.available == 4096 ==> r.codeSize == 12)
  {
    SetUpSound(m, prefix, suffix);
    var x := Later(m, data, 0, SetUp(m, prefix, suffix), k);
    hide SetUp, Later;
    if x.On? {
      SoundWidths(m, x.next);
    }
  }

  lemma SoundWidths(m: nat, a: Machine)
    requires Sound(m, a)
    ensures HoldsFree(a.r.codeSize, a.r.available) && a.r.codeMask == Pow2(a.r.codeSize) - 1
    ensures Pow2(m) + 2 <= a.r.available <= 4096
  {
    WidthHoldsFree(a.r.available);
    hide Width, HoldsFree, Pow2;
  }

  /** The same for the reference decoder. */
  lemma NextWidth(m: nat, t: Table)
    requires 2 <= m <= 11 && WellFormed(m, t)
    ensures HoldsFree(Width(Next(m, t)), Next(m, t))
  {
    WidthHoldsFree(Next(m, t));
  }

  // ------------------------------------------------------------------ decoder and encoder in step

  /** The free code that the decoder has when the encoder's table has these strings: the decoder is
      one string behind. */
  function FreeBehind(m: nat, table: seq<seq<byte>>): nat {
    Pow2(m) + 2 + if table == [] then 0 else |table| - 1
  }

  /** The encoder's table and code size, before it writes a code for w. */
  predicate EncoderOk(m: nat, table: seq<seq<byte>>, size: nat, w: seq<byte>) {
    && 2 <= m <= 11 && Pow2(m) + 2 + |table| <= 4096 && HoldsFree(size, FreeBehind(m, table))
    && w != [] && (if |w| == 1 then w[0] < Pow2(m) else w in table)
  }

  lemma HoldsCodes(m: nat, size: nat, free: nat)
    requires 2 <= m <= 11 && Pow2(m) + 2 <= free <= 4096 && HoldsFree(size, free)
    ensures m + 1 <= size <= 12 && Pow2(m) + 1 < Pow2(size) && free <= Pow2(12) && (free < 4096 ==> free < Pow2(size))
  {
    Pow2Values();
    Pow2Less(size, m);
    Pow2Less(12, size - 1);
    Pow2Less(m, size);
  }

  lemma NextSize(size: nat, f: nat, free: nat)
    requires 1 <= size <= 12 && HoldsFree(size, f) && f < 4096 && f <= free <= f + 1
    ensures HoldsFree(if free == Pow2(size) && size < 12 then size + 1 else size, free)
  {
    assert size == 12 ==> Pow2(size) == 4096 by { Pow2Values(); }
    assert size < 12 ==> 2 * Pow2(size) <= 4096 by { Pow2Less(size, 12); Pow2Values(); }
    assert Pow2(size + 1) == 2 * Pow2(size);
    hide Pow2;
  }

  lemma SizeGrows(m: nat, table: seq<seq<byte>>, size: nat)
    requires 2 <= m <= 11 && Pow2(m) + 2 + |table| <= 4096 && HoldsFree(size, FreeBehind(m, table))
    ensures HoldsFree(SizeAfter(m, table, size), Pow2(m) + 2 + |table|)
  {
    hide HoldsFree, Pow2;
    HoldsCodes(m, size, FreeBehind(m, table));
    StartHolds(m);
    NextSize(size, FreeBehind(m, table), Pow2(m) + 2 + |table|);
  }

  lemma StartHolds(m: nat)
    requires 2 <= m <= 11
    ensures HoldsFree(m + 1, Pow2(m) + 2) && Pow2(m) + 2 < 4096
  {
    Pow2Range(m);
  }

  lemma CodeFits(m: nat, table: seq<seq<byte>>, size: nat, w: seq<byte>)
    requires EncoderOk(m, table, size, w)
    ensures CodeOf(m, table, w) < Pow2(size) && CodeOf(m, table, w) <= FreeBehind(m, table) < 4096
    ensures CodeOf(m, table, w) < Pow2(m) || CodeOf(m, table, w) >= Pow2(m) + 2
  {
    hide HoldsFree;
    HoldsCodes(m, size, FreeBehind(m, table));
  }

  lemma ControlsFit(m: nat, table: seq<seq<byte>>, size: nat)
    requires 2 <= m <= 11 && Pow2(m) + 2 + |table| <= 4096 && HoldsFree(size, FreeBehind(m, table))
    ensures Pow2(m) + 1 < Pow2(SizeAfter(m, table, size))
  {
    SizeGrows(m, table, size);
    hide HoldsFree, SizeAfter;
    HoldsCodes(m, SizeAfter(m, table, size), Pow2(m) + 2 + |table|);
  }

  lemma AllFitPlus(a: seq<Code>, b: seq<Code>)
    requires AllFit(a) && AllFit(b)
    ensures AllFit(a + b)
  {
  }

  lemma AllFitTwo(x: Code, y: Code)
    requires x.value < Pow2(x.size) && y.value < Pow2(y.size)
    ensures AllFit([x]) && AllFit([x, y])
  {
  }

  predicate Pixels(m: nat, s: seq<byte>) { forall i :: 0 <= i < |s| ==> s[i] < Pow2(m) }

  /** After a code, the table grows by a string, or starts again. */
  lemma OkNext(m: nat, table: seq<seq<byte>>, size: nat, w: seq<byte>, rest: seq<byte>)
    requires EncoderOk(m, table, size, w) && rest != [] && Pixels(m, rest)
    ensures var longer, next := w + [rest[0]], SizeAfter(m, table, size);
            (longer in table ==> EncoderOk(m, table, size, longer))
            && (Pow2(m) + 2 + |table| < 4096 ==> EncoderOk(m, table + [longer], next, [rest[0]]))
            && EncoderOk(m, [], m + 1, [rest[0]]) && Pixels(m, rest[1..])
  {
    SizeGrows(m, table, size);
    StartHolds(m);
    hide HoldsFree, SizeAfter, Pow2;
  }

  lemma {:induction false} AllCodesFit(m: nat, table: seq<seq<byte>>, size: nat, w: seq<byte>, rest: seq<byte>)
    requires EncoderOk(m, table, size, w) && Pixels(m, rest)
    ensures AllFit(EncodeFrom(m, table, size, w, rest))
    decreases |rest|
  {
    var code, next := Code(CodeOf(m, table, w), size), SizeAfter(m, table, size);
    CodeFits(m, table, size, w);
    ControlsFit(m, table, size);
    AllFitTwo(code, Code(Pow2(m) + 1, next));
    AllFitTwo(code, Code(Pow2(m), next));
    hide AllFit, EncoderOk, CodeOf, SizeAfter, Pixels, Pow2;
    if rest != [] {
      OkNext(m, table, size, w, rest);
      var longer := w + [rest[0]];
      if longer in table {
        AllCodesFit(m, table, size, longer, rest[1..]);
      } else if Pow2(m) + 2 + |table| < 4096 {
        AllCodesFit(m, table + [longer], next, [rest[0]], rest[1..]);
        AllFitPlus([code], EncodeFrom(m, table + [longer], next, [rest[0]], rest[1..]));
      } else {
        AllCodesFit(m, [], m + 1, [rest[0]], rest[1..]);
        AllFitPlus([code, Code(Pow2(m), next)], EncodeFrom(m, [], m + 1, [rest[0]], rest[1..]));
      }
    }
  }

  /** The decoder's table, when the encoder has its own and is about to write a code for w: the last
      string is the one that the decoder still lacks. */
  predicate InStep(m: nat, table: seq<seq<byte>>, w: seq<byte>, t: Table) {
    WellFormed(m, t) && w != [] &&
    if table == [] then t.extra == [] && t.prev == []
    else t.prev != [] && t.extra == table[..|table| - 1] && table[|table| - 1] == t.prev + [w[0]]
  }

  lemma InStepFree(m: nat, table: seq<seq<byte>>, w: seq<byte>, t: Table)
    requires InStep(m, table, w, t)
    ensures Next(m, t) == FreeBehind(m, table) && (t.prev == [] <==> table == [])
  {
  }

  /** A code says its string to the decoder, which is then as far as the encoder's table. */
  lemma CodeSays(m: nat, table: seq<seq<byte>>, size: nat, w: seq<byte>, t: Table)
    requires EncoderOk(m, table, size, w) && InStep(m, table, w, t)
    ensures var code := CodeOf(m, table, w);
            GoesOn(m, t, code) && code != Clear(m) && Said(m, t, code) == w
            && After(m, t, code).prev == w && After(m, t, code).extra == table && WellFormed(m, After(m, t, code))
  {
    CodeFits(m, table, size, w);
    InStepFree(m, table, w, t);
    hide HoldsFree, Pow2;
    if |w| > 1 {
      var i := IndexOf(table, w);
      assert table[i] == w;
    } else {
      assert w == [w[0]];
    }
  }

  /** The table that decoding goes on with, as the encoder goes on. */
  lemma StaysInStep(m: nat, table: seq<seq<byte>>, w: seq<byte>, c: byte, t: Table)
    requires WellFormed(m, t) && t.prev == w && w != [] && t.extra == table
    ensures InStep(m, table + [w + [c]], [c], t) && InStep(m, [], [c], Cleared(t))
  {
    assert (table + [w + [c]])[..|table|] == table;
  }

  lemma WidthIs(m: nat, t: Table, size: nat)
    requires 2 <= m <= 11 && WellFormed(m, t) && HoldsFree(size, Next(m, t))
    ensures size == Width(Next(m, t))
  {
    hide HoldsFree, Pow2;
    HeldByOne(size, Next(m, t));
  }

  /** The decoder reads the next code and acts on it. */
  lemma TakesCode(m: nat, data: seq<byte>, p: nat, codes: seq<Code>, t: Table)
    requires 2 <= m <= 11 && WellFormed(m, t) && Left(data, p, codes) && codes != []
    requires HoldsFree(codes[0].size, Next(m, t))
    ensures Left(data, p + codes[0].size, codes[1..]) && p + codes[0].size <= 8 * |data| && codes[0].size > 0
    ensures var code, q := codes[0].value, p + codes[0].size;
            Foresee(m, data, p, t) ==
              if GoesOn(m, t, code) then On(Said(m, t, code), q, After(m, t, code))
              else if NonLiteral(m, t, code) then Ends(Outcome([], NotLiteral(t.cell)))
              else if code > Next(m, t) then Ends(Outcome([], UnknownCode))
              else Ends(Outcome([], if code == Clear(m) + 1 then EndCode else TableFull))
  {
    ReadCode(data, p, codes);
    WidthIs(m, t, codes[0].size);
    WidthRange(m, t);
    hide HoldsFree, Pow2, Left, Slice, Width, GoesOn, NonLiteral, Said, After;
  }

  lemma EndSays(m: nat, t: Table)
    requires WellFormed(m, t)
    ensures !GoesOn(m, t, Clear(m) + 1) && !NonLiteral(m, t, Clear(m) + 1) && Clear(m) + 1 <= Next(m, t)
  {
  }

  lemma ClearSays(m: nat, t: Table)
    requires WellFormed(m, t)
    ensures GoesOn(m, t, Clear(m)) && Said(m, t, Clear(m)) == [] && After(m, t, Clear(m)) == Cleared(t)
    ensures WellFormed(m, Cleared(t)) && Next(m, Cleared(t)) == Clear(m) + 2
  {
  }

  lemma AfterCode(m: nat, data: seq<byte>, p: nat, codes: seq<Code>, table: seq<seq<byte>>, size: nat, w: seq<byte>,
                  t: Table)
    requires EncoderOk(m, table, size, w) && InStep(m, table, w, t) && WellFormed(m, t) && 2 <= m <= 11
    requires Left(data, p, codes) && codes != [] && codes[0] == Code(CodeOf(m, table, w), size)
    ensures var code, q := CodeOf(m, table, w), p + size;
            code <= Next(m, t) && code != Clear(m) + 1 &&
            var t1 := After(m, t, code);
            WellFormed(m, t1) && t1.prev == w && t1.extra == table && Left(data, q, codes[1..])
            && HoldsFree(SizeAfter(m, table, size), Next(m, t1))
            && Decode(m, data, p, t, false) == Then(w, Decode(m, data, q, t1, false))
  {
    hide *;
    OkParts(m, table, size, w);
    InStepFree(m, table, w, t);
    CodeSays(m, table, size, w, t);
    SizeGrows(m, table, size);
    TakesCode(m, data, p, codes, t);
    DecodeOne(m, data, p, t);
    GoesOnParts(m, t, codes[0].value);
    FreeOf(m, After(m, t, codes[0].value));
  }

  lemma GoesOnParts(m: nat, t: Table, code: nat)
    requires GoesOn(m, t, code)
    ensures code <= Next(m, t) && code != Clear(m) + 1
  {
  }

  lemma FreeOf(m: nat, t: Table)
    ensures Next(m, t) == Pow2(m) + 2 + |t.extra|
  {
  }

  lemma OkParts(m: nat, table: seq<seq<byte>>, size: nat, w: seq<byte>)
    requires EncoderOk(m, table, size, w)
    ensures 2 <= m <= 11 && Pow2(m) + 2 + |table| <= 4096 && HoldsFree(size, FreeBehind(m, table)) && w != []
  {
  }

  lemma ClearIs(m: nat)
    ensures Clear(m) == Pow2(m)
  {
  }

  lemma AfterEnd(m: nat, data: seq<byte>, p: nat, codes: seq<Code>, t: Table)
    requires 2 <= m <= 11 && WellFormed(m, t) && Left(data, p, codes) && codes != []
    requires codes[0].value == Pow2(m) + 1 && HoldsFree(codes[0].size, Next(m, t))
    ensures Decode(m, data, p, t, false) == Outcome([], EndCode)
  {
    hide *;
    ClearIs(m);
    EndSays(m, t);
    TakesCode(m, data, p, codes, t);
    DecodeOne(m, data, p, t);
  }

  lemma AfterClear(m: nat, data: seq<byte>, p: nat, codes: seq<Code>, t: Table)
    requires 2 <= m <= 11 && WellFormed(m, t) && Left(data, p, codes) && codes != []
    requires codes[0].value == Pow2(m) && HoldsFree(codes[0].size, Next(m, t))
    ensures WellFormed(m, Cleared(t)) && Left(data, p + codes[0].size, codes[1..])
    ensures Decode(m, data, p, t, false) == Decode(m, data, p + codes[0].size, Cleared(t), false)
  {
    hide *;
    ClearIs(m);
    ClearSays(m, t);
    TakesCode(m, data, p, codes, t);
    DecodeOne(m, data, p, t);
    NothingFirst(Decode(m, data, p + codes[0].size, Cleared(t), false));
  }

  lemma FirstOf(code: Code, more: seq<Code>)
    ensures ([code] + more)[0] == code && ([code] + more)[1..] == more
  {
  }

  lemma Emits(m: nat, table: seq<seq<byte>>, size: nat, w: seq<byte>, rest: seq<byte>)
    requires w != []
    ensures var code, next := Code(CodeOf(m, table, w), size), SizeAfter(m, table, size);
            if rest == [] then EncodeFrom(m, table, size, w, rest) == [code] + [Code(Pow2(m) + 1, next)]
            else
              var longer := w + [rest[0]];
              EncodeFrom(m, table, size, w, rest) ==
                if longer in table then EncodeFrom(m, table, size, longer, rest[1..])
                else if Pow2(m) + 2 + |table| < 4096 then
                  [code] + EncodeFrom(m, table + [longer], next, [rest[0]], rest[1..])
                else [code] + ([Code(Pow2(m), next)] + EncodeFrom(m, [], m + 1, [rest[0]], rest[1..]))
  {
    hide CodeOf, SizeAfter, Pow2;
  }

  lemma InStepLonger(m: nat, table: seq<seq<byte>>, w: seq<byte>, c: byte, t: Table)
    requires InStep(m, table, w, t)
    ensures InStep(m, table, w + [c], t)
  {
  }

  lemma Appended(w: seq<byte>, rest: seq<byte>)
    requires rest != []
    ensures (w + [rest[0]]) + rest[1..] == w + rest && w + ([rest[0]] + rest[1..]) == w + rest
  {
    assert rest == [rest[0]] + rest[1..];
  }

  /** A code and a new table entry: where decoding stands then. */
  lemma AddsEntry(m: nat, data: seq<byte>, p: nat, more: seq<Code>, table: seq<seq<byte>>, size: nat, w: seq<byte>,
                  c: byte, t: Table)
    requires EncoderOk(m, table, size, w) && InStep(m, table, w, t) && WellFormed(m, t) && 2 <= m <= 11 && w != []
    requires Left(data, p, [Code(CodeOf(m, table, w), size)] + more)
    ensures exists t1 ::
              WellFormed(m, t1) && InStep(m, table + [w + [c]], [c], t1) && InStep(m, [], [c], Cleared(t1))
              && HoldsFree(SizeAfter(m, table, size), Next(m, t1)) && Left(data, p + size, more)
              && Decode(m, data, p, t, false) == Then(w, Decode(m, data, p + size, t1, false))
  {
    hide *;
    var code := Code(CodeOf(m, table, w), size);
    FirstOf(code, more);
    AfterCode(m, data, p, [code] + more, table, size, w, t);
    StaysInStep(m, table, w, c, After(m, t, code.value));
  }

  /** The decoder delivers these pixels and stops at the end code. */
  predicate Delivers(m: nat, data: seq<byte>, p: nat, t: Table, pixels: seq<byte>)
    requires 2 <= m <= 11 && WellFormed(m, t)
  {
    Decode(m, data, p, t, false) == Outcome(pixels, EndCode)
  }

  lemma DeliversThen(m: nat, data: seq<byte>, p: nat, t: Table, w: seq<byte>, q: nat, t1: Table, more: seq<byte>)
    requires 2 <= m <= 11 && WellFormed(m, t) && WellFormed(m, t1) && Delivers(m, data, q, t1, more)
    requires Decode(m, data, p, t, false) == Then(w, Decode(m, data, q, t1, false))
    ensures Delivers(m, data, p, t, w + more)
  {
    hide Decode, WellFormed;
  }

  lemma DeliversNothing(m: nat, data: seq<byte>, p: nat, t: Table)
    requires 2 <= m <= 11 && WellFormed(m, t) && Decode(m, data, p, t, false) == Outcome([], EndCode)
    ensures Delivers(m, data, p, t, [])
  {
  }

  lemma DeliversSame(m: nat, data: seq<byte>, p: nat, t: Table, q: nat, t1: Table, pixels: seq<byte>)
    requires 2 <= m <= 11 && WellFormed(m, t) && WellFormed(m, t1) && Delivers(m, data, q, t1, pixels)
    requires Decode(m, data, p, t, false) == Decode(m, data, q, t1, false)
    ensures Delivers(m, data, p, t, pixels)
  {
  }

  lemma DeliversIs(m: nat, data: seq<byte>, p: nat, t: Table, pixels: seq<byte>)
    requires 2 <= m <= 11 && WellFormed(m, t)
    ensures Delivers(m, data, p, t, pixels) == (Decode(m, data, p, t, false) == Outcome(pixels, EndCode))
  {
  }

  /** From any place in the pixels on, the decoder delivers what the encoder has yet to write. */
  lemma {:induction false} DecodesRest(m: nat, data: seq<byte>, p: nat, table: seq<seq<byte>>, size: nat,
                                       w: seq<byte>, rest: seq<byte>, t: Table)
    requires EncoderOk(m, table, size, w) && InStep(m, table, w, t) && WellFormed(m, t) && 2 <= m <= 11 && w != []
    requires Pixels(m, rest) && Left(data, p, EncodeFrom(m, table, size, w, rest))
    ensures Delivers(m, data, p, t, w + rest)
    decreases |rest|
  {
    hide *;
    var next := SizeAfter(m, table, size);
    Emits(m, table, size, w, rest);
    if rest == [] {
      var end := [Code(Pow2(m) + 1, next)];
      AddsEntry(m, data, p, end, table, size, w, 0, t);
      var t1 :| WellFormed(m, t1) && HoldsFree(next, Next(m, t1)) && Left(data, p + size, end)
                && Decode(m, data, p, t, false) == Then(w, Decode(m, data, p + size, t1, false));
      AfterEnd(m, data, p + size, end, t1);
      DeliversNothing(m, data, p + size, t1);
      DeliversThen(m, data, p, t, w, p + size, t1, []);
      return;
    }
    var c, longer := rest[0], w + [rest[0]];
    OkNext(m, table, size, w, rest);
    Appended(w, rest);
    if longer in table {
      InStepLonger(m, table, w, c, t);
      DecodesRest(m, data, p, table, size, longer, rest[1..], t);
    } else if Pow2(m) + 2 + |table| < 4096 {
      var more := EncodeFrom(m, table + [longer], next, [c], rest[1..]);
      AddsEntry(m, data, p, more, table, size, w, c, t);
      var t1 :| WellFormed(m, t1) && InStep(m, table + [longer], [c], t1) && Left(data, p + size, more)
                && Decode(m, data, p, t, false) == Then(w, Decode(m, data, p + size, t1, false));
      DecodesRest(m, data, p + size, table + [longer], next, [c], rest[1..], t1);
      DeliversThen(m, data, p, t, w, p + size, t1, [c] + rest[1..]);
    } else {
      var more := EncodeFrom(m, [], m + 1, [c], rest[1..]);
      var clear := Code(Pow2(m), next);
      AddsEntry(m, data, p, [clear] + more, table, size, w, c, t);
      var t1 :| WellFormed(m, t1) && InStep(m, [], [c], Cleared(t1)) && HoldsFree(next, Next(m, t1))
                && Left(data, p + size, [clear] + more)
                && Decode(m, data, p, t, false) == Then(w, Decode(m, data, p + size, t1, false));
      FirstOf(clear, more);
      AfterClear(m, data, p + size, [clear] + more, t1);
      DecodesRest(m, data, p + size + next, [], m + 1, [c], rest[1..], Cleared(t1));
      DeliversSame(m, data, p + size, t1, p + size + next, Cleared(t1), [c] + rest[1..]);
      DeliversThen(m, data, p, t, w, p + size, t1, [c] + rest[1..]);
    }
  }

  lemma EncodeParts(m: nat, pixels: seq<byte>)
    ensures Encode(m, pixels) == [Code(Pow2(m), m + 1)] +
              if pixels == [] then [Code(Pow2(m) + 1, m + 1)] else EncodeFrom(m, [], m + 1, [pixels[0]], pixels[1..])
  {
  }

  lemma FirstOk(m: nat, pixels: seq<byte>)
    requires 2 <= m <= 11 && Pixels(m, pixels) && pixels != []
    ensures EncoderOk(m, [], m + 1, [pixels[0]]) && Pixels(m, pixels[1..])
  {
    StartHolds(m);
    hide HoldsFree, Pow2;
  }

  lemma EmptyInStep(m: nat, c: byte, t: Table)
    requires 2 <= m <= 11 && t.extra == [] && t.prev == []
    ensures WellFormed(m, t) && Next(m, t) == Pow2(m) + 2 && InStep(m, [], [c], t)
  {
    StartHolds(m);
  }

  lemma EncodedFits(m: nat, pixels: seq<byte>)
    requires 2 <= m <= 11 && Pixels(m, pixels)
    ensures AllFit(Encode(m, pixels))
  {
    StartHolds(m);
    assert Pow2(m + 1) == 2 * Pow2(m) && Pow2(m) >= 4 by { Pow2Range(m); }
    AllFitTwo(Code(Pow2(m), m + 1), Code(Pow2(m) + 1, m + 1));
    AllFitTwo(Code(Pow2(m) + 1, m + 1), Code(Pow2(m) + 1, m + 1));
    hide AllFit, Pixels, EncodeFrom, Pow2, HoldsFree;
    if pixels != [] {
      FirstOk(m, pixels);
      AllCodesFit(m, [], m + 1, [pixels[0]], pixels[1..]);
      AllFitPlus([Code(Pow2(m), m + 1)], EncodeFrom(m, [], m + 1, [pixels[0]], pixels[1..]));
    } else {
      AllFitPlus([Code(Pow2(m), m + 1)], [Code(Pow2(m) + 1, m + 1)]);
    }
  }

  lemma EmptyTable()
    ensures EMPTY_TABLE.extra == [] && EMPTY_TABLE.prev == [] && Cleared(EMPTY_TABLE) == EMPTY_TABLE
  {
  }

  /** Decoding undoes encoding: for every code size and every row of pixels of that many bits, the
      decoder delivers the pixels and stops at the end code, whether it would go on with a full table
      or not. */
  lemma DecodeUndoesEncode(m: nat, pixels: seq<byte>, deferred: bool)
    requires 2 <= m <= 11 && Pixels(m, pixels)
    ensures WellFormed(m, EMPTY_TABLE)
    ensures Decode(m, BytesOf(Encode(m, pixels)), 0, EMPTY_TABLE, deferred) == Outcome(pixels, EndCode)
  {
    hide *;
    var codes, data, size := Encode(m, pixels), BytesOf(Encode(m, pixels)), m + 1;
    EmptyTable();
    EncodedFits(m, pixels);
    StartLeft(codes);
    EncodeParts(m, pixels);
    StartHolds(m);
    EmptyInStep(m, 0, EMPTY_TABLE);
    if pixels == [] {
      FirstOf(Code(Pow2(m), size), [Code(Pow2(m) + 1, size)]);
      AfterClear(m, data, 0, codes, EMPTY_TABLE);
      AfterEnd(m, data, size, [Code(Pow2(m) + 1, size)], EMPTY_TABLE);
    } else {
      var more := EncodeFrom(m, [], size, [pixels[0]], pixels[1..]);
      FirstOf(Code(Pow2(m), size), more);
      AfterClear(m, data, 0, codes, EMPTY_TABLE);
      FirstOk(m, pixels);
      EmptyInStep(m, pixels[0], EMPTY_TABLE);
      DecodesRest(m, data, size, [], size, [pixels[0]], pixels[1..], EMPTY_TABLE);
      DeliversIs(m, data, size, EMPTY_TABLE, [pixels[0]] + pixels[1..]);
      assert [pixels[0]] + pixels[1..] == pixels;
    }
    LzwTheorems.PrefixOfSpecification(m, data, 0, EMPTY_TABLE);
  }
}
