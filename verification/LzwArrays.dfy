/** How the decoder's arrays and counters represent the dictionary of the reference decoder,
    and what each of its steps does to that representation. */
module LzwArrays {
  import opened Bits
  import opened LzwReference

  const MAX_STACK_SIZE := 4096
  const NULL_CODE := -1

  /** A value stored in `prefix`, a C# `short`: every code is below 4096. */
  type entry = x: int | 0 <= x < 4096

  /** The decoder's counters: the first free code, the current code width and its mask, the
      previous code and the first byte of its string. */
  datatype Registers = Registers(available: nat, codeSize: nat, codeMask: nat, oldCode: int, first: nat)

  function Start(m: nat): Registers {
    Registers(Clear(m) + 2, m + 1, Pow2(m + 1) - 1, NULL_CODE, 0)
  }

  /** The pixels on the stack in the order in which they are popped. */
  function Popped(stack: seq<byte>): seq<byte> {
    if stack == [] then [] else [stack[|stack| - 1]] + Popped(stack[..|stack| - 1])
  }

  /** Table entry k is the string of an earlier code and one more byte. */
  predicate EntryOk(m: nat, prefix: seq<entry>, suffix: seq<byte>, extra: seq<seq<byte>>, k: nat)
    requires |prefix| == |suffix| == MAX_CODES && k < |extra| && Clear(m) + 2 + |extra| <= MAX_CODES
  {
    var c := Clear(m) + 2 + k;
    prefix[c] < c && IsCode(m, extra, prefix[c]) &&
    extra[k] == Lookup(m, extra, prefix[c]) + [suffix[c]] && |extra[k]| <= k + 2
  }

  predicate TableOk(m: nat, prefix: seq<entry>, suffix: seq<byte>, extra: seq<seq<byte>>) {
    && |prefix| == |suffix| == MAX_CODES && Clear(m) + 2 + |extra| <= MAX_CODES
    && (forall c | 0 <= c < Clear(m) :: suffix[c] == c % 256)
    && (forall k | 0 <= k < |extra| :: EntryOk(m, prefix, suffix, extra, k))
  }

  /** The code width and its mask follow from the number of codes in use. */
  predicate CountersOk(m: nat, r: Registers) {
    && Clear(m) + 2 <= r.available <= MAX_CODES
    && r.codeSize == Width(r.available) && r.codeMask == Pow2(r.codeSize) - 1
  }

  predicate PreviousOk(m: nat, r: Registers, t: Table) {
    if r.oldCode == NULL_CODE then t.prev == []
    else
      IsCode(m, t.extra, r.oldCode) && t.prev == Lookup(m, t.extra, r.oldCode) &&
      t.prev != [] && r.first % 256 == t.prev[0]
  }

  /** The suffix cell of the first code that a table can add; `stale` is what the cell held
      before this image. */
  predicate CellOk(m: nat, suffix: seq<byte>, t: Table, stale: byte)
    requires Clear(m) + 2 < |suffix|
  {
    t.extra == [] ==> suffix[Clear(m) + 2] == CellValue(t.cell, stale)
  }

  function CellValue(cell: Cell, stale: byte): byte {
    match cell
    case Unwritten => stale
    case Written(v) => v
  }

  /** The arrays and counters represent the table `t`. */
  predicate Represents(m: nat, r: Registers, prefix: seq<entry>, suffix: seq<byte>,
                       t: Table, stale: byte)
  {
    && 2 <= m <= 11 && |prefix| == |suffix| == MAX_CODES && Clear(m) + 2 < MAX_CODES
    && CountersOk(m, r) && NULL_CODE <= r.oldCode < MAX_CODES && r.first < MAX_CODES
    && WellFormed(m, t) && r.available == Next(m, t) && TableOk(m, prefix, suffix, t.extra)
    && PreviousOk(m, r, t) && CellOk(m, suffix, t, stale)
  }

  /** Bits [p, 8 * loaded) of `data` are the `bits` bits held in `datum`. */
  predicate Buffered(data: seq<byte>, loaded: nat, p: nat, bits: nat, datum: nat) {
    && loaded <= |data| && 8 * loaded == p + bits
    && datum == Shr(LittleEndian(data[..loaded]), p)
  }

  lemma BufferedEnd(data: seq<byte>, loaded: nat, p: nat, bits: nat, datum: nat)
    requires Buffered(data, loaded, p, bits, datum)
    ensures p + bits == 8 * loaded <= 8 * |data|
  {
  }

  lemma BufferedBound(data: seq<byte>, loaded: nat, p: nat, bits: nat, datum: nat)
    requires Buffered(data, loaded, p, bits, datum)
    ensures datum < Pow2(bits)
  {
    LittleEndianBound(data[..loaded]);
    ShrBound(LittleEndian(data[..loaded]), p, bits);
  }

  /** Adding the next byte above the buffered bits keeps the buffer a slice of the data, and the
      sum stays below 2^19 as long as a code is wanted. */
  lemma LoadStep(data: seq<byte>, loaded: nat, p: nat, bits: nat, datum: nat)
    requires Buffered(data, loaded, p, bits, datum) && loaded < |data|
    ensures Buffered(data, loaded + 1, p, bits + 8, datum + Shl(data[loaded], bits))
    ensures bits < 12 ==> datum + Shl(data[loaded], bits) < 0x8_0000
  {
    var d, b := data[..loaded], data[loaded];
    assert data[..loaded + 1] == d + [b];
    LittleEndianConcat(d, [b]);
    assert LittleEndian([b]) == b;
    ShrOfSum(LittleEndian(d), b, p, 8 * loaded);
    BufferedBound(data, loaded + 1, p, bits + 8, datum + Shl(b, bits));
    Pow2Values();
    Pow2Less(bits + 8, 19);
  }

  /** Masking the buffer gives the next code of the bit string, and shifting it out moves the
      buffer past that code. */
  lemma TakeStep(data: seq<byte>, loaded: nat, p: nat, bits: nat, datum: nat, w: nat)
    requires Buffered(data, loaded, p, bits, datum) && w <= bits
    ensures BitAnd(datum, Pow2(w) - 1) == Slice(data, p, w) < Pow2(w)
    ensures Buffered(data, loaded, p + w, bits - w, Shr(datum, w)) && Shr(datum, w) <= datum
  {
    ShrShrinks(datum, w);
    BitAndMask(datum, w);
    LowBound(datum, w);
    SliceOfPrefix(data, loaded, p, w);
    ShrTwice(LittleEndian(data[..loaded]), p, w);
  }

  lemma CountersStart(m: nat)
    requires 2 <= m <= 11
    ensures CountersOk(m, Start(m)) && Clear(m) + 2 < MAX_CODES
  {
    Pow2Range(m);
    Pow2Values();
    BitLengthUnique(Clear(m) + 2, m + 1);
  }

  /** The arrays as the decoder sets them up represent the empty table. */
  lemma StartOk(m: nat, prefix: seq<entry>, suffix: seq<byte>)
    requires 2 <= m <= 11 && |prefix| == |suffix| == MAX_CODES && Clear(m) + 2 < MAX_CODES
    requires forall c | 0 <= c < Clear(m) :: suffix[c] == c % 256
    ensures Represents(m, Start(m), prefix, suffix, EMPTY_TABLE, suffix[Clear(m) + 2])
  {
    CountersStart(m);
    Pow2Range(m);
  }

  lemma CountersRange(m: nat, r: Registers)
    requires 2 <= m <= 11 && CountersOk(m, r)
    ensures 1 <= r.codeSize <= 12 && r.codeMask < MAX_CODES
    ensures r.available < MAX_CODES ==> r.available < Pow2(r.codeSize)
  {
    Pow2Values();
    Pow2Less(r.codeSize, 12);
    if r.available < MAX_CODES {
      BitLengthWithin(r.available, 0, 12);
      BitLengthBounds(r.available);
    }
  }

  /** The counters after a new table entry, as the decoder computes them. */
  function Grown(r: Registers): Registers {
    var a := r.available + 1;
    if BitAnd(a, r.codeMask) == 0 && a < MAX_STACK_SIZE
    then r.(available := a, codeSize := r.codeSize + 1, codeMask := r.codeMask + a)
    else r.(available := a)
  }

  /** Counting past n: the mask test recognises the first number with one more binary digit. */
  lemma NextNumber(n: nat)
    requires n >= 1
    ensures var w := BitLength(n);
            if n + 1 == Pow2(w) then BitAnd(n + 1, Pow2(w) - 1) == 0 && BitLength(n + 1) == w + 1
            else BitAnd(n + 1, Pow2(w) - 1) != 0 && BitLength(n + 1) == w
  {
    var a, w := n + 1, BitLength(n);
    BitLengthBounds(n);
    BitAndMask(a, w);
    if a == Pow2(w) {
      LowOfPow2(w);
      BitLengthUnique(a, w + 1);
    } else {
      LowSmall(a, w);
      BitLengthUnique(a, w);
    }
  }

  /** The test `(available & code_mask) == 0` widens the codes exactly when they run out. */
  lemma GrownOk(m: nat, r: Registers)
    requires 2 <= m <= 11 && CountersOk(m, r) && r.available < MAX_CODES
    ensures CountersOk(m, Grown(r))
  {
    var w := r.codeSize;
    NextNumber(r.available);
    if r.available + 1 == MAX_CODES {
      BitLengthUnique(4095, 12) by { Pow2Values(); }
    }
  }

  lemma {:induction false} LowOfPow2(k: nat)
    ensures Low(Pow2(k), k) == 0
  {
    if k > 0 {
      LowOfPow2(k - 1);
    }
  }

  /** One step of the walk: a code above clear is its prefix code and one more byte, and the
      prefix code is smaller, so the walk ends. */
  lemma WalkStep(m: nat, prefix: seq<entry>, suffix: seq<byte>, extra: seq<seq<byte>>, code: nat)
    requires TableOk(m, prefix, suffix, extra) && IsCode(m, extra, code)
    ensures code < Clear(m) ==> Lookup(m, extra, code) == [suffix[code]]
    ensures code > Clear(m) ==>
              prefix[code] < code && IsCode(m, extra, prefix[code]) &&
              Lookup(m, extra, code) == Lookup(m, extra, prefix[code]) + [suffix[code]]
    ensures |Lookup(m, extra, code)| <= |extra| + 1
  {
    if code > Clear(m) {
      assert EntryOk(m, prefix, suffix, extra, code - Clear(m) - 2);
    }
  }

  lemma AddEntry(m: nat, prefix: seq<entry>, suffix: seq<byte>, extra: seq<seq<byte>>, parent: entry, b: byte)
    requires TableOk(m, prefix, suffix, extra) && IsCode(m, extra, parent)
    requires Clear(m) + 2 + |extra| < MAX_CODES
    ensures var n := Clear(m) + 2 + |extra|;
            TableOk(m, prefix[n := parent], suffix[n := b], extra + [Lookup(m, extra, parent) + [b]])
  {
    var n, s := Clear(m) + 2 + |extra|, Lookup(m, extra, parent) + [b];
    var prefix', suffix', extra' := prefix[n := parent], suffix[n := b], extra + [s];
    NewEntry(m, prefix, suffix, extra, parent, b);
    hide EntryOk, IsCode, Lookup;
    forall k | 0 <= k < |extra|
      ensures EntryOk(m, prefix', suffix', extra', k)
    {
      OldEntry(m, prefix, suffix, extra, k, n, parent, b, s);
    }
  }

  lemma NewEntry(m: nat, prefix: seq<entry>, suffix: seq<byte>, extra: seq<seq<byte>>, parent: entry, b: byte)
    requires TableOk(m, prefix, suffix, extra) && IsCode(m, extra, parent)
    requires Clear(m) + 2 + |extra| < MAX_CODES
    ensures var n := Clear(m) + 2 + |extra|;
            |prefix| == |suffix| == MAX_CODES
            && EntryOk(m, prefix[n := parent], suffix[n := b], extra + [Lookup(m, extra, parent) + [b]], |extra|)
  {
    WalkStep(m, prefix, suffix, extra, parent);
    LookupStays(m, extra, Lookup(m, extra, parent) + [b], parent);
    hide TableOk, Pow2, Lookup;
  }

  lemma LookupStays(m: nat, extra: seq<seq<byte>>, s: seq<byte>, code: nat)
    requires IsCode(m, extra, code)
    ensures IsCode(m, extra + [s], code) && Lookup(m, extra + [s], code) == Lookup(m, extra, code)
  {
  }

  /** Entries stay what they are when another is added after them. */
  lemma OldEntry(m: nat, prefix: seq<entry>, suffix: seq<byte>, extra: seq<seq<byte>>, k: nat, n: nat,
                 parent: entry, b: byte, s: seq<byte>)
    requires |prefix| == |suffix| == MAX_CODES && k < |extra| && Clear(m) + 2 + |extra| == n < MAX_CODES
    requires EntryOk(m, prefix, suffix, extra, k)
    ensures EntryOk(m, prefix[n := parent], suffix[n := b], extra + [s], k)
  {
  }

  lemma PoppedPush(stack: seq<byte>, b: byte)
    ensures Popped(stack + [b]) == [b] + Popped(stack)
  {
    assert (stack + [b])[..|stack|] == stack;
  }

  /** Moving the top of the stack to the pixels shows nothing new. */
  lemma PopStep(pixels: seq<byte>, pi: nat, stack: seq<byte>, top: nat)
    requires pi < |pixels| && 0 < top <= |stack|
    ensures pixels[..pi] + Popped(stack[..top])
         == pixels[pi := stack[top - 1]][..pi + 1] + Popped(stack[..top - 1])
  {
    assert stack[..top][..top - 1] == stack[..top - 1];
    assert pixels[pi := stack[top - 1]][..pi + 1] == pixels[..pi] + [stack[top - 1]];
  }

  lemma NothingStacked(shown: seq<byte>, stack: seq<byte>)
    ensures shown + Popped(stack[..0]) == shown
  {
  }

  lemma NothingShown(pixels: seq<byte>, stack: seq<byte>)
    ensures pixels[..0] + Popped(stack[..0]) == []
  {
  }

  lemma PoppedLength(stack: seq<byte>)
    ensures |Popped(stack)| == |stack|
  {
  }
}
