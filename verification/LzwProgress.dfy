/** How far the decode loop has come, measured against the machine's result, and what the pixels are
    to be when it ends, by that result and by the reference decoder. */
module LzwProgress {
  import opened Bits
  import opened SubBlocks
  import opened LzwReference
  import opened LzwArrays
  import opened LzwMachine

  /** The pixels of an image of n pixels, of which decoding delivered `out`: cut at n, missing
      ones zero. */
  function Padded(out: seq<byte>, n: nat): seq<byte> {
    if |out| >= n then out[..n] else out + seq(n - |out|, _ => 0)
  }

  /** What the reference decoder makes of the image data at `pos`, a code size byte and a chain of
      sub-blocks; it stops where this decoder stops. */
  function ImageOutcome(stream: seq<byte>, pos: nat): Outcome
    requires pos < |stream| && 2 <= stream[pos] <= 11 && Framed(stream, pos + 1)
  {
    EmptyTableFits(stream[pos]);
    Decode(stream[pos], Payload(stream, pos + 1), 0, EMPTY_TABLE, false)
  }

  lemma EmptyTableFits(m: nat)
    requires 2 <= m <= 11
    ensures WellFormed(m, EMPTY_TABLE)
  {
    Pow2Range(m);
  }

  /** The decoder meets, before the image is full, a first code that stands for no string. */
  predicate MeetsNonLiteral(o: Outcome, npix: nat) {
    o.stop.NotLiteral? && |o.out| < npix
  }

  /** The decoder asks for more data than the image has. */
  predicate RunsOut(o: Outcome, npix: nat) {
    o.stop.OutOfData? && |o.out| < npix
  }

  /** Decoding asks for more data than there are exactly when the reference decoder does, unless it
      has met a first code that stands for nothing. */
  predicate RanOutAs(o: Outcome, npix: nat, ranOut: bool) {
    !MeetsNonLiteral(o, npix) ==> ranOut == RunsOut(o, npix)
  }

  /** The cursor is at the end of the chain, or in front of a part that ends there. */
  predicate Within(stream: seq<byte>, pos: nat, end: nat, ranOut: bool) {
    pos <= |stream| && if ranOut then pos == end else Framed(stream, pos) && ChainEnd(stream, pos) == end
  }

  /** The unread data is what is left of the current sub-block, then the chain at the cursor. */
  predicate Unread(stream: seq<byte>, pos: nat, end: nat, data: seq<byte>, loaded: nat,
                   block: seq<byte>, bi: nat, count: nat)
  {
    && Framed(stream, pos) && ChainEnd(stream, pos) == end
    && loaded <= |data| && bi + count <= |block|
    && data[loaded..] == block[bi..bi + count] + Payload(stream, pos)
  }

  lemma UnreadStart(stream: seq<byte>, pos: nat, block: seq<byte>)
    requires Framed(stream, pos)
    ensures Unread(stream, pos, ChainEnd(stream, pos), Payload(stream, pos), 0, block, 0, 0)
  {
  }

  lemma UnreadChain(stream: seq<byte>, pos: nat, end: nat, data: seq<byte>, loaded: nat, block: seq<byte>,
                    bi: nat, count: nat)
    requires Unread(stream, pos, end, data, loaded, block, bi, count)
    ensures Framed(stream, pos) && ChainEnd(stream, pos) == end
    ensures loaded <= |data| && (count == 0 ==> data[loaded..] == Payload(stream, pos))
  {
  }

  /** Reading the next sub-block when the current one is used up. */
  lemma UnreadNext(stream: seq<byte>, pos: nat, end: nat, data: seq<byte>, loaded: nat, block: seq<byte>, n: nat)
    requires Framed(stream, pos) && ChainEnd(stream, pos) == end
    requires loaded <= |data| && data[loaded..] == Payload(stream, pos) && n <= |block|
    requires if pos == |stream| then n == 0
             else n == stream[pos] && pos + 1 + n <= |stream| && block[..n] == stream[pos + 1..pos + 1 + n]
    ensures n == 0 ==> loaded == |data| && end == if pos == |stream| then pos else pos + 1
    ensures n > 0 ==> Unread(stream, pos + 1 + n, end, data, loaded, block, 0, n)
  {
  }

  lemma UnreadByte(stream: seq<byte>, pos: nat, end: nat, data: seq<byte>, loaded: nat, block: seq<byte>,
                   bi: nat, count: nat)
    requires Unread(stream, pos, end, data, loaded, block, bi, count) && count > 0
    ensures loaded < |data| && bi < |block| && block[bi] == data[loaded]
    ensures Unread(stream, pos, end, data, loaded + 1, block, bi + 1, count - 1)
  {
    assert data[loaded..][0] == block[bi];
    assert data[loaded + 1..] == data[loaded..][1..];
  }

  /** What the machine makes of the image data at `pos`, on arrays with these contents. */
  function ImageResult(stream: seq<byte>, pos: nat, prefix: seq<entry>, suffix: seq<byte>): Result
    requires pos < |stream| && 2 <= stream[pos] <= 11 && Framed(stream, pos + 1)
    requires |prefix| == |suffix| == MAX_CODES
  {
    SetUpSound(stream[pos], prefix, suffix);
    Run(stream[pos], Payload(stream, pos + 1), 0, SetUp(stream[pos], prefix, suffix))
  }

  /** The image is not full when the machine ends. */
  predicate Falls(result: Result, npix: nat) { |result.out| < npix }

  /** The decode loop ends with the pixels `shown`: those of the result, cut at the image; it throws,
      or asks for more data than there are, exactly when the machine does before the image is full. */
  predicate EndsAs(result: Result, npix: nat, threw: bool, ranOut: bool, shown: seq<byte>) {
    && shown == (if Falls(result, npix) then result.out else result.out[..npix])
    && threw == (Falls(result, npix) && result.halt.Thrown?)
    && ranOut == (Falls(result, npix) && result.halt.DataOver?)
  }

  lemma EndsFull(result: Result, shown: seq<byte>, popped: seq<byte>, rest: Result)
    requires result == Before(shown + popped, rest)
    ensures EndsAs(result, |shown|, false, false, shown)
  {
    assert shown + popped + rest.out == shown + (popped + rest.out);
  }

  lemma EndsShort(result: Result, npix: nat, shown: seq<byte>, rest: Result)
    requires result == Before(shown, rest) && rest.out == [] && |shown| < npix
    ensures EndsAs(result, npix, rest.halt.Thrown?, rest.halt.DataOver?, shown)
  {
    assert shown + [] == shown;
  }

  lemma BeforeTwice(a: seq<byte>, b: seq<byte>, rest: Result)
    ensures Before(a, Before(b, rest)) == Before(a + b, rest)
  {
    assert a + (b + rest.out) == a + b + rest.out;
  }

  lemma BeforeNothing(rest: Result)
    ensures Before([], rest) == rest
  {
    assert [] + rest.out == rest.out;
  }

  /** The pixels of an image at the end. After an exception those that are not decoded are as they
      were; otherwise missing ones are zero. */
  predicate PixelsOfResult(result: Result, npix: nat, threw: bool, pixels: seq<byte>) {
    |pixels| == npix && if threw then result.out <= pixels else pixels == Padded(result.out, npix)
  }

  lemma EndsPadded(result: Result, npix: nat, threw: bool, ranOut: bool, shown: seq<byte>, pixels: seq<byte>)
    requires EndsAs(result, npix, threw, ranOut, shown) && |pixels| == npix
    requires if threw then shown <= pixels else pixels == shown + seq(npix - |shown|, _ => 0)
    ensures PixelsOfResult(result, npix, threw, pixels)
  {
  }

  /** What the result says about the image in terms of the reference decoder. */
  lemma ResultRefines(result: Result, o: Outcome, npix: nat, stale: byte, threw: bool, ranOut: bool, pixels: seq<byte>)
    requires Refines(result, o, stale) && PixelsOfResult(result, npix, threw, pixels)
    requires threw == (Falls(result, npix) && result.halt.Thrown?)
    requires ranOut == (Falls(result, npix) && result.halt.DataOver?)
    ensures PixelsAs(o, npix, stale, threw, pixels) && RanOutAs(o, npix, ranOut)
  {
    if o.stop.NotLiteral? {
      var more := o.out + [CellValue(o.stop.cell, stale)];
      assert result.out == more + result.out[|more|..];
      if |o.out| >= npix {
        assert result.out[..npix] == o.out[..npix];
      }
    }
  }

  /** The machine's result for an image refines the reference decoder's outcome. */
  lemma ImageRefines(stream: seq<byte>, pos: nat, prefix: seq<entry>, suffix: seq<byte>)
    requires pos < |stream| && 2 <= stream[pos] <= 11 && Framed(stream, pos + 1)
    requires |prefix| == |suffix| == MAX_CODES && Clear(stream[pos]) + 2 < MAX_CODES
    ensures Refines(ImageResult(stream, pos, prefix, suffix), ImageOutcome(stream, pos), suffix[Clear(stream[pos]) + 2])
  {
    var m, data := stream[pos], Payload(stream, pos + 1);
    SetUpSound(m, prefix, suffix);
    EmptyTableFits(m);
    hide Sound, Represents, Run, Decode, Framed, Payload, SetUp;
    RunRefines(m, data, 0, SetUp(m, prefix, suffix), EMPTY_TABLE, suffix[Clear(m) + 2]);
  }

  /** The pixels of an image, at the end. */
  predicate PixelsAs(o: Outcome, npix: nat, stale: byte, threw: bool, pixels: seq<byte>) {
    if MeetsNonLiteral(o, npix) then o.out + [CellValue(o.stop.cell, stale)] <= pixels
    else !threw && pixels == Padded(o.out, npix)
  }
}
