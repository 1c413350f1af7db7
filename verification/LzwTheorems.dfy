/** How this decoder's LZW decoding compares with the GIF89a specification, and the inputs on which
    it goes wrong. */
module LzwTheorems {
  import opened Bits
  import opened SubBlocks
  import opened LzwReference
  import opened LzwArrays
  import opened LzwProgress

  /** What the decoder delivers is a prefix of what the specification's decoder delivers. The two
      agree exactly when no data code meets a full table. */
  lemma {:induction false} PrefixOfSpecification(m: nat, data: seq<byte>, p: nat, t: Table)
    requires 2 <= m <= 11 && WellFormed(m, t)
    ensures var actual, specified := Decode(m, data, p, t, false), Decode(m, data, p, t, true);
            actual.out <= specified.out &&
            (actual.out == specified.out <==> !actual.stop.TableFull?) &&
            (actual == specified <==> !actual.stop.TableFull?)
    decreases 8 * |data| - p
  {
    hide Slice, Width;
    var w := Width(Next(m, t));
    if p + w <= 8 * |data| {
      WidthRange(m, t);
      var code := Slice(data, p, w);
      if code == Clear(m) {
        PrefixOfSpecification(m, data, p + w, Cleared(t));
      } else if code > Next(m, t) || code == Clear(m) + 1 {
      } else if t.prev == [] {
        if code < Clear(m) {
          PrefixOfSpecification(m, data, p + w, t.(prev := [code % 256]));
        }
      } else if Next(m, t) < MAX_CODES {
        PrefixOfSpecification(m, data, p + w, Learned(m, t, StringOf(m, t, code)));
      }
    }
  }

  /** The first free code after n data codes since the last clear: each but the first adds one. */
  function FreeAfter(m: nat, n: nat): nat { Clear(m) + 2 + if n == 0 then 0 else n - 1 }

  /** What a scan for a full table learns from the next code: how it ends, or that it goes on. */
  datatype Ahead = Over(full: bool) | On(code: nat, p: nat)

  function Look(m: nat, data: seq<byte>, p: nat, next: nat, first: bool): Ahead {
    var w := Width(next);
    if p + w > 8 * |data| then Over(false)
    else
      var code := Slice(data, p, w);
      if code > next || code == Clear(m) + 1 then Over(false)
      else if code == Clear(m) then On(code, p + w)
      else if first then (if code < Clear(m) then On(code, p + w) else Over(false))
      else if next == MAX_CODES then Over(true) else On(code, p + w)
  }

  lemma LookOn(m: nat, data: seq<byte>, p: nat, next: nat, first: bool)
    requires 2 <= m <= 11 && FreeAfter(m, 0) <= next <= MAX_CODES
    ensures var a := Look(m, data, p, next, first);
            a.On? ==>
              p < a.p <= 8 * |data| && a.code <= next && a.code != Clear(m) + 1
              && (a.code != Clear(m) && !first ==> next < MAX_CODES)
  {
    Pow2Range(m);
    if next < MAX_CODES {
      BitLengthBounds(next);
    }
    hide Slice;
  }

  function CountAfter(m: nat, n: nat, code: nat): nat { if code == Clear(m) then 0 else n + 1 }

  /** From bit p on, with n data codes since the last clear, some run of data codes outgrows the
      table. Codes are only counted; no strings are built. */
  predicate LongRun(m: nat, data: seq<byte>, p: nat, n: nat)
    requires 2 <= m <= 11 && FreeAfter(m, n) <= MAX_CODES
    decreases 8 * |data| - p
  {
    LookOn(m, data, p, FreeAfter(m, n), n == 0);
    match Look(m, data, p, FreeAfter(m, n), n == 0)
    case Over(full) => full
    case On(code, q) => RunStart(m); LongRun(m, data, q, CountAfter(m, n, code))
  }

  lemma RunStart(m: nat)
    requires 2 <= m <= 11
    ensures FreeAfter(m, 0) == FreeAfter(m, 1) == Clear(m) + 2 < MAX_CODES
  {
    CountersStart(m);
  }

  lemma WidthOfCount(m: nat, n: nat)
    requires 2 <= m <= 11 && FreeAfter(m, n) <= MAX_CODES
    ensures 3 <= Width(FreeAfter(m, n)) <= 12
  {
    Pow2Values();
    if FreeAfter(m, n) < MAX_CODES {
      Pow2Range(m);
      BitLengthWithin(FreeAfter(m, n), 2, 12);
    }
  }

  /** The table after n data codes since the last clear. */
  predicate Counted(m: nat, t: Table, n: nat) {
    |t.extra| == (if n == 0 then 0 else n - 1) && (t.prev == [] <==> n == 0)
  }

  /** How the count of codes changes with the table. */
  lemma AfterCounted(m: nat, t: Table, n: nat, code: nat)
    requires 2 <= m <= 11 && WellFormed(m, t) && Counted(m, t, n)
    requires code <= Next(m, t) && code != Clear(m) + 1 && (code != Clear(m) && n > 0 ==> Next(m, t) < MAX_CODES)
    ensures WellFormed(m, After(m, t, code)) && Counted(m, After(m, t, code), CountAfter(m, n, code))
  {
    RunStart(m);
  }

  lemma CountedNext(m: nat, t: Table, n: nat)
    requires 2 <= m <= 11 && WellFormed(m, t) && Counted(m, t, n)
    ensures Next(m, t) == FreeAfter(m, n) <= MAX_CODES && FreeAfter(m, 0) <= Next(m, t)
    ensures t.prev == [] <==> n == 0
  {
  }

  /** What the next code makes of an outcome. */
  lemma OutStep(m: nat, data: seq<byte>, p: nat, t: Table)
    requires 2 <= m <= 11 && WellFormed(m, t)
    ensures var o := Decode(m, data, p, t, false);
            match Look(m, data, p, Next(m, t), t.prev == [])
            case Over(full) => o.stop.TableFull? == full && o.out == []
            case On(code, q) =>
              code <= Next(m, t) && code != Clear(m) + 1 && WellFormed(m, After(m, t, code))
              && o.stop == Decode(m, data, q, After(m, t, code), false).stop
              && |o.out| == |Said(m, t, code)| + |Decode(m, data, q, After(m, t, code), false).out|
  {
    hide Width, Slice, Learned, StringOf;
  }

  lemma RunStep(m: nat, data: seq<byte>, p: nat, n: nat)
    requires 2 <= m <= 11 && FreeAfter(m, n) <= MAX_CODES
    ensures match Look(m, data, p, FreeAfter(m, n), n == 0)
            case Over(full) => LongRun(m, data, p, n) == full
            case On(code, q) =>
              FreeAfter(m, CountAfter(m, n, code)) <= MAX_CODES
              && LongRun(m, data, p, n) == LongRun(m, data, q, CountAfter(m, n, code))
  {
    LookOn(m, data, p, FreeAfter(m, n), n == 0);
    RunStart(m);
    hide Look;
  }

  /** Decoding meets a full table exactly when a run of data codes outgrows the table. */
  lemma {:induction false} TableFullIff(m: nat, data: seq<byte>, p: nat, t: Table, n: nat)
    requires 2 <= m <= 11 && WellFormed(m, t) && Counted(m, t, n)
    ensures FreeAfter(m, n) <= MAX_CODES
    ensures Decode(m, data, p, t, false).stop.TableFull? <==> LongRun(m, data, p, n)
    decreases 8 * |data| - p
  {
    hide *;
    CountedNext(m, t, n);
    OutStep(m, data, p, t);
    RunStep(m, data, p, n);
    LookOn(m, data, p, Next(m, t), n == 0);
    match Look(m, data, p, Next(m, t), n == 0)
    case Over(_) =>
    case On(code, q) =>
      AfterCounted(m, t, n, code);
      TableFullIff(m, data, q, After(m, t, code), CountAfter(m, n, code));
  }

  predicate AllZero(data: seq<byte>) { forall k :: 0 <= k < |data| ==> data[k] == 0 }

  lemma {:induction false} ZeroNumber(data: seq<byte>)
    requires AllZero(data)
    ensures LittleEndian(data) == 0
  {
    if data != [] {
      ZeroNumber(data[1..]);
    }
  }

  lemma {:induction false} ZeroShr(k: nat)
    ensures Shr(0, k) == 0
  {
    if k > 0 {
      ZeroShr(k - 1);
    }
  }

  lemma ZeroSlice(data: seq<byte>, p: nat, w: nat)
    requires AllZero(data)
    ensures Slice(data, p, w) == 0
  {
    ZeroNumber(data);
    ZeroShr(p);
    LowSmall(0, w);
  }

  lemma ZeroLook(m: nat, data: seq<byte>, p: nat, n: nat)
    requires 2 <= m <= 11 && FreeAfter(m, n) <= MAX_CODES && AllZero(data) && p + 12 <= 8 * |data|
    ensures var a := Look(m, data, p, FreeAfter(m, n), n == 0);
            a == Over(true) || (a.On? && CountAfter(m, n, a.code) == n + 1 && a.p <= p + 12)
    ensures n == MAX_CODES ==> Look(m, data, p, FreeAfter(m, n), n == 0) == Over(true)
  {
    var w := Width(FreeAfter(m, n));
    WidthOfCount(m, n);
    ZeroSlice(data, p, w);
    Pow2Range(m);
    hide Slice, Width;
  }

  lemma {:induction false} ZerosRunLong(m: nat, data: seq<byte>, p: nat, n: nat)
    requires 2 <= m <= 11 && FreeAfter(m, n) <= MAX_CODES && AllZero(data)
    requires p + 12 * (MAX_CODES + 2 - n) <= 8 * |data| && n <= MAX_CODES
    ensures LongRun(m, data, p, n)
    decreases MAX_CODES - n
  {
    hide Look, LongRun, FreeAfter, CountAfter, AllZero;
    ZeroLook(m, data, p, n);
    RunStep(m, data, p, n);
    var a := Look(m, data, p, FreeAfter(m, n), n == 0);
    if a.On? {
      ZerosRunLong(m, data, a.p, n + 1);
    }
  }

  /** Data on which the decoder stops early: 4098 codes or more, all of them the literal 0. */
  lemma ZerosStopEarly(m: nat, data: seq<byte>)
    requires 2 <= m <= 11 && WellFormed(m, EMPTY_TABLE)
    requires AllZero(data) && 8 * |data| >= 12 * (MAX_CODES + 2)
    ensures LongRun(m, data, 0, 0)
    ensures Decode(m, data, 0, EMPTY_TABLE, false).stop.TableFull?
    ensures Decode(m, data, 0, EMPTY_TABLE, false).out < Decode(m, data, 0, EMPTY_TABLE, true).out
  {
    hide Decode, LongRun;
    RunStart(m);
    ZerosRunLong(m, data, 0, 0);
    TableFullIff(m, data, 0, EMPTY_TABLE, 0);
    PrefixOfSpecification(m, data, 0, EMPTY_TABLE);
  }

  /** What the specification's decoder delivers after this one has stopped, inside the image, is all
      zero. */
  predicate RestIsZero(actual: seq<byte>, specified: seq<byte>, npix: nat) {
    forall i :: |actual| <= i < npix && i < |specified| ==> specified[i] == 0
  }

  lemma PaddedAt(out: seq<byte>, npix: nat, i: nat)
    requires i < npix
    ensures |Padded(out, npix)| == npix && Padded(out, npix)[i] == if i < |out| then out[i] else 0
  {
  }

  /** An image has the pixels of the specification exactly when the specification's further pixels in
      it are zero, as the missing ones are. */
  lemma PixelsOfSpecification(m: nat, data: seq<byte>, npix: nat)
    requires 2 <= m <= 11 && WellFormed(m, EMPTY_TABLE)
    ensures var actual, specified := Decode(m, data, 0, EMPTY_TABLE, false), Decode(m, data, 0, EMPTY_TABLE, true);
            Padded(actual.out, npix) == Padded(specified.out, npix) <==> RestIsZero(actual.out, specified.out, npix)
  {
    PrefixOfSpecification(m, data, 0, EMPTY_TABLE);
    hide Decode;
    PaddedAlike(Decode(m, data, 0, EMPTY_TABLE, false).out, Decode(m, data, 0, EMPTY_TABLE, true).out, npix);
  }

  // ------------------------------------------------------------------ a full table inside the image

  /** The length of the string of a code, from the lengths of the table's strings. */
  function LengthOf(m: nat, lens: seq<nat>, prev: nat, code: nat): nat {
    if code < Clear(m) then 1
    else if Clear(m) + 2 <= code < Clear(m) + 2 + |lens| then lens[code - Clear(m) - 2] else prev + 1
  }

  function Less(room: nat, n: nat): nat { if n <= room then room - n else 0 }

  /** What the scan goes on with: lengths of the table's strings and of the previous string (0 when
      there is none), and how many pixels the image lacks. */
  datatype Lengths = Lengths(lens: seq<nat>, prev: nat, room: nat)

  predicate LengthsFit(m: nat, l: Lengths) { Clear(m) + 2 + |l.lens| <= MAX_CODES }

  function LengthsAfter(m: nat, l: Lengths, code: nat): Lengths {
    if code == Clear(m) then Lengths([], 0, l.room)
    else
      var n := LengthOf(m, l.lens, l.prev, code);
      Lengths(if l.prev == 0 then l.lens else l.lens + [l.prev + 1], n, Less(l.room, n))
  }

  /** From bit p on, a data code meets a full table before the image is full. Only codes and lengths
      of strings are looked at. */
  predicate Outgrows(m: nat, data: seq<byte>, p: nat, l: Lengths)
    requires 2 <= m <= 11 && LengthsFit(m, l)
    decreases 8 * |data| - p
  {
    var next := Clear(m) + 2 + |l.lens|;
    LookOn(m, data, p, next, l.prev == 0);
    l.room > 0 &&
    match Look(m, data, p, next, l.prev == 0)
    case Over(full) => full
    case On(code, q) => RunStart(m); Outgrows(m, data, q, LengthsAfter(m, l, code))
  }

  /** The lengths are those of the table. */
  predicate Measures(t: Table, l: Lengths) {
    |l.lens| == |t.extra| && |t.prev| == l.prev && forall k :: 0 <= k < |l.lens| ==> l.lens[k] == |t.extra[k]|
  }

  lemma MeasuresAfter(m: nat, t: Table, l: Lengths, code: nat)
    requires 2 <= m <= 11 && WellFormed(m, t) && Measures(t, l)
    requires code <= Next(m, t) && code != Clear(m) + 1 && WellFormed(m, After(m, t, code))
    requires code != Clear(m) && t.prev == [] ==> code < Clear(m)
    requires code != Clear(m) && t.prev != [] ==> Next(m, t) < MAX_CODES
    ensures Measures(After(m, t, code), LengthsAfter(m, l, code)) && LengthsFit(m, LengthsAfter(m, l, code))
    ensures LengthsAfter(m, l, code).room == Less(l.room, |Said(m, t, code)|)
  {
    RunStart(m);
    hide Pow2;
  }

  lemma MeasuresFit(m: nat, t: Table, l: Lengths)
    requires WellFormed(m, t) && Measures(t, l)
    ensures LengthsFit(m, l) && Clear(m) + 2 + |l.lens| == Next(m, t) && (l.prev == 0 <==> t.prev == [])
    ensures FreeAfter(m, 0) <= Next(m, t) <= MAX_CODES
  {
  }

  lemma OutgrowsStep(m: nat, data: seq<byte>, p: nat, l: Lengths)
    requires 2 <= m <= 11 && LengthsFit(m, l)
    ensures match Look(m, data, p, Clear(m) + 2 + |l.lens|, l.prev == 0)
            case Over(full) => Outgrows(m, data, p, l) == (l.room > 0 && full)
            case On(code, q) =>
              LengthsFit(m, LengthsAfter(m, l, code))
              && Outgrows(m, data, p, l) == (l.room > 0 && Outgrows(m, data, q, LengthsAfter(m, l, code)))
  {
    LookOn(m, data, p, Clear(m) + 2 + |l.lens|, l.prev == 0);
    RunStart(m);
    hide Look;
  }

  /** Decoding stops at a full table before the image is full exactly when the scan says so. */
  lemma {:induction false} OutgrowsIff(m: nat, data: seq<byte>, p: nat, t: Table, l: Lengths)
    requires 2 <= m <= 11 && WellFormed(m, t) && Measures(t, l)
    ensures LengthsFit(m, l)
    ensures var o := Decode(m, data, p, t, false);
            o.stop.TableFull? && |o.out| < l.room <==> Outgrows(m, data, p, l)
    decreases 8 * |data| - p
  {
    hide *;
    MeasuresFit(m, t, l);
    OutStep(m, data, p, t);
    OutgrowsStep(m, data, p, l);
    LookOn(m, data, p, Next(m, t), t.prev == []);
    match Look(m, data, p, Next(m, t), t.prev == [])
    case Over(_) =>
    case On(code, q) =>
      LookLiteral(m, data, p, Next(m, t), t.prev == []);
      MeasuresAfter(m, t, l, code);
      LessIs(l.room, |Said(m, t, code)|);
      OutgrowsIff(m, data, q, After(m, t, code), LengthsAfter(m, l, code));
  }

  lemma LookLiteral(m: nat, data: seq<byte>, p: nat, next: nat, first: bool)
    ensures var a := Look(m, data, p, next, first); a.On? && first ==> a.code <= Clear(m)
  {
  }

  lemma LessIs(room: nat, n: nat)
    ensures Less(room, n) == if n <= room then room - n else 0
  {
  }

  /** The data that a table has before the first code. */
  function NoLengths(npix: nat): Lengths { Lengths([], 0, npix) }

  /** When no data code meets a full table inside the image, its pixels are the specification's. */
  lemma PixelsWithinTable(m: nat, data: seq<byte>, npix: nat)
    requires 2 <= m <= 11 && WellFormed(m, EMPTY_TABLE) && LengthsFit(m, NoLengths(npix))
    ensures !Outgrows(m, data, 0, NoLengths(npix)) ==>
              Padded(Decode(m, data, 0, EMPTY_TABLE, false).out, npix) ==
              Padded(Decode(m, data, 0, EMPTY_TABLE, true).out, npix)
  {
    hide Decode, Outgrows, Padded;
    OutgrowsIff(m, data, 0, EMPTY_TABLE, NoLengths(npix));
    PrefixOfSpecification(m, data, 0, EMPTY_TABLE);
    PixelsOfSpecification(m, data, npix);
  }

  lemma PaddedAlike(actual: seq<byte>, specified: seq<byte>, npix: nat)
    requires actual <= specified
    ensures Padded(actual, npix) == Padded(specified, npix) <==> RestIsZero(actual, specified, npix)
    ensures |actual| >= npix || actual == specified ==> RestIsZero(actual, specified, npix)
  {
    var a, s := Padded(actual, npix), Padded(specified, npix);
    forall i | 0 <= i < npix
      ensures |a| == |s| == npix
      ensures a[i] == (if i < |actual| then actual[i] else 0) && s[i] == if i < |specified| then specified[i] else 0
    {
      PaddedAt(actual, npix, i);
      PaddedAt(specified, npix, i);
    }
    hide Padded;
    if RestIsZero(actual, specified, npix) {
      PaddedEqual(actual, specified, npix);
    }
  }

  lemma PaddedEqual(actual: seq<byte>, specified: seq<byte>, npix: nat)
    requires actual <= specified && RestIsZero(actual, specified, npix)
    ensures Padded(actual, npix) == Padded(specified, npix)
  {
  }

  /** The counters after n new table entries. */
  function GrownBy(m: nat, n: nat): (r: Registers)
    ensures r.available == Clear(m) + 2 + n
  {
    if n == 0 then Start(m) else Grown(GrownBy(m, n - 1))
  }

  predicate MaskFits(r: Registers) {
    r.codeMask == Pow2(r.codeSize) - 1
  }

  /** The mask stays 2^code_size - 1 while the table fills exactly when the code size byte is at
      least 2, the least that the specification allows. */
  lemma MaskFitsIff(m: nat)
    requires m <= 11
    ensures (forall n: nat | Clear(m) + 2 + n <= MAX_CODES :: MaskFits(GrownBy(m, n))) <==> m >= 2
  {
    Pow2Values();
    if m >= 2 {
      forall n: nat | Clear(m) + 2 + n <= MAX_CODES
        ensures MaskFits(GrownBy(m, n))
      {
        GrownByOk(m, n);
      }
    } else {
      MaskBreaks(m);
    }
  }

  lemma {:induction false} GrownByOk(m: nat, n: nat)
    requires 2 <= m <= 11 && Clear(m) + 2 + n <= MAX_CODES
    ensures CountersOk(m, GrownBy(m, n))
  {
    if n == 0 {
      CountersStart(m);
    } else {
      GrownByOk(m, n - 1);
      GrownOk(m, GrownBy(m, n - 1));
    }
  }

  lemma MaskBreaks(m: nat)
    requires m <= 1
    ensures var n := if m == 0 then 1 else 4; !MaskFits(GrownBy(m, n)) && Clear(m) + 2 + n <= MAX_CODES
  {
    Pow2Values();
    if m == 0 {
      var r := Start(0);
      BitAndMask(4, 1);
      assert Low(4, 1) == 0;
      assert Grown(r) == Registers(4, 2, 5, NULL_CODE, 0);
    } else {
      var r := Start(1);
      assert r == Registers(4, 2, 3, NULL_CODE, 0);
      BitAndMask(5, 2); BitAndMask(6, 2); BitAndMask(7, 2); BitAndMask(8, 2);
      LowTwo(5); LowTwo(6); LowTwo(7); LowTwo(8);
      assert GrownBy(1, 1) == Registers(5, 2, 3, NULL_CODE, 0);
      assert GrownBy(1, 2) == Registers(6, 2, 3, NULL_CODE, 0);
      assert GrownBy(1, 3) == Registers(7, 2, 3, NULL_CODE, 0);
      assert GrownBy(1, 4) == Registers(8, 3, 11, NULL_CODE, 0);
    }
  }

  lemma LowTwo(x: nat)
    ensures Low(x, 2) == x % 2 + 2 * (x / 2 % 2)
  {
    assert Low(x / 2, 1) == x / 2 % 2 + 2 * Low(x / 2 / 2, 0);
  }

  /** A file whose first code is the first free code (6, at code size 2): its one pixel is whatever
      the suffix array holds in that cell, so it depends on the images decoded before. */
  lemma StaleByteShows(stale: byte, pixels: seq<byte>)
    ensures var stream: seq<byte> := [2, 1, 6, 0];
            Framed(stream, 1) && MeetsNonLiteral(ImageOutcome(stream, 0), 1) &&
            (|pixels| == 1 ==> (PixelsAs(ImageOutcome(stream, 0), 1, stale, false, pixels) <==> pixels == [stale]))
  {
    var stream: seq<byte> := [2, 1, 6, 0];
    assert Framed(stream, 3);
    assert Payload(stream, 3) == [];
    assert Payload(stream, 1) == [6];
    Pow2Values();
    EmptyTableFits(2);
    assert Width(6) == 3;
    FirstSlice(6, 3);
    LowSmall(6, 3);
    assert ImageOutcome(stream, 0) == Outcome([], NotLiteral(Unwritten));
  }

  lemma FirstSlice(b: byte, w: nat)
    ensures Slice([b], 0, w) == Low(b, w)
  {
    assert [b][1..] == [];
    assert LittleEndian([b]) == b;
  }

  /** Image data without an end code that hold fewer pixels than the image: decoding runs out, and
      the sub-blocks that end with the next zero byte after the image go with it. */
  lemma ShortDataRunOut(npix: nat)
    requires npix > 0
    ensures var stream: seq<byte> := [7, 0, 1, 0x3b, 0];
            Framed(stream, 1) && RunsOut(ImageOutcome(stream, 0), npix) &&
            ChainEnd(stream, 1) == 2 && Framed(stream, 2) && ChainEnd(stream, 2) == |stream|
  {
    var stream: seq<byte> := [7, 0, 1, 0x3b, 0];
    assert Framed(stream, 1);
    assert Framed(stream, 4);
    assert Payload(stream, 1) == [];
    EmptyTableFits(7);
  }
}
