/** The GIF decoder of ext/Aga.Controls/GifDecoder.cs, to which the line numbers below refer. The
    input is a byte string with a cursor; reads past its end give -1. */
module GifDecoder {
  import opened Bits
  import opened SubBlocks
  import opened LzwReference
  import opened LzwArrays
  import opened LzwMachine
  import opened LzwDecoder
  import opened LzwProgress
  import opened RowCopy
  import opened GifGrammar
  import GifStandard

  /** The working arrays of image decoding. */
  datatype Arrays = Arrays(prefix: array<entry>, suffix: array<byte>, stack: array<byte>, pixels: array<byte>)

  predicate Separate(block: array<byte>, a: Arrays) {
    && a.prefix.Length == a.suffix.Length == MAX_CODES && a.stack.Length == MAX_STACK_SIZE + 1
    && block != a.suffix && block != a.stack && block != a.pixels && block as object != a.prefix
    && a.suffix != a.stack && a.suffix != a.pixels && a.suffix as object != a.prefix
    && a.stack != a.pixels && a.stack as object != a.prefix && a.pixels as object != a.prefix
  }

  /** The bits read but not yet decoded, and the unread rest of the current sub-block. */
  datatype Input = Input(datum: nat32, bits: nat, bi: nat, count: nat)

  /** One image to decode: its code size, number of pixels and data, where the data end, and what the
      machine makes of it all. */
  datatype Task = Task(m: nat, npix: nat, data: seq<byte>, end: nat, o: Result)

  /** How far decoding has come: bytes loaded, bits decoded. */
  datatype History = History(loaded: nat, p: nat)

  /** Input is consumed. */
  predicate Consumed(k: Task, input: Input, h: History, input0: Input, h0: History) {
    var n, n0 := 8 * (|k.data| - h.loaded) + input.bits, 8 * (|k.data| - h0.loaded) + input0.bits;
    h.loaded <= |k.data| && (n < n0 || (n == n0 && h0.loaded < h.loaded))
  }

  /** The machine's result is the pixels shown and stacked so far, then what it makes of the rest. */
  predicate Progress(k: Task, a: Machine, p: nat, shown: seq<byte>)
    requires Sound(k.m, a)
  {
    k.o == Before(shown, Run(k.m, k.data, p, a))
  }

  /** `s` with `bytes` written over it from `offset` on. */
  function Overwritten(s: seq<byte>, offset: nat, bytes: seq<byte>): seq<byte>
    requires offset + |bytes| <= |s|
  {
    s[..offset] + bytes + s[offset + |bytes|..]
  }

  lemma OverwriteNothing(s: seq<byte>, stream: seq<byte>, start: nat)
    requires start <= |stream|
    ensures Overwritten(s, 0, []) == s && stream[start..start] == []
  {
  }

  lemma OverwrittenPrefix(s: seq<byte>, a: seq<byte>)
    requires |a| <= |s|
    ensures |Overwritten(s, 0, a)| == |s| && Overwritten(s, 0, a)[..|a|] == a
  {
  }

  lemma OverwriteMore(s: seq<byte>, a: seq<byte>, b: seq<byte>)
    requires |a| + |b| <= |s|
    ensures |Overwritten(s, 0, a)| == |s|
    ensures Overwritten(Overwritten(s, 0, a), |a|, b) == Overwritten(s, 0, a + b)
  {
  }

  lemma SliceJoin(s: seq<byte>, i: nat, j: nat, k: nat)
    requires i <= j <= k <= |s|
    ensures s[i..j] + s[j..k] == s[i..k]
  {
  }

  /** The objects that are not null are six different ones. */
  predicate Different(a: object, b: object?, c: object?, d: object?, e: object?, f: object?) {
    && a != b && a != c && a != d && a != e && a != f
    && (b != null ==> b != c && b != d && b != e && b != f)
    && (c != null ==> c != d && c != e && c != f)
    && (d != null ==> d != e && d != f)
    && (e != null ==> e != f)
  }

  /** The data are over before the image is full. */
  lemma DataEnds(k: Task, a: Machine, p: nat, shown: seq<byte>)
    requires Sound(k.m, a) && p + a.r.codeSize > 8 * |k.data| && |shown| < k.npix && Progress(k, a, p, shown)
    ensures EndsAs(k.o, k.npix, false, true, shown)
  {
    EndsShort(k.o, k.npix, shown, Run(k.m, k.data, p, a));
    hide Sound, EndsAs;
  }

  lemma NeverOver(result: Result, o: Outcome, npix: nat, stale: byte)
    requires Refines(result, o, stale) && !MeetsNonLiteral(o, npix) && !RunsOut(o, npix)
    ensures !(Falls(result, npix) && result.halt.DataOver?)
  {
    if o.stop.NotLiteral? {
      assert |result.out| > |o.out|;
    }
  }

  lemma LessInput(k: Task, input: Input, h: History, input0: Input, h0: History)
    requires h0.loaded < |k.data| && h.loaded == h0.loaded + 1 && input.bits == input0.bits + 8
    ensures Consumed(k, input, h, input0, h0)
  {
  }

  lemma WithinEnd(stream: seq<byte>, pos: nat, end: nat)
    requires pos == end <= |stream|
    ensures Within(stream, pos, end, true)
  {
  }

  lemma CodesFit()
    ensures MAX_CODES == 4096
  {
  }

  lemma NothingBuffered(data: seq<byte>)
    ensures Buffered(data, 0, 0, 0, 0)
  {
    assert LittleEndian([]) == 0;
  }

  lemma EndsHow(o: Result, npix: nat, threw: bool, ranOut: bool, shown: seq<byte>)
    requires EndsAs(o, npix, threw, ranOut, shown)
    ensures EndsAs(o, npix, threw, ranOut, if Falls(o, npix) then o.out else o.out[..npix])
  {
  }

  lemma AdvanceMoved(m: nat, data: seq<byte>, p: nat, a: Machine, sig: Signal, popped: seq<byte>, a': Machine)
    requires Sound(m, a) && p + a.r.codeSize <= 8 * |data| && Slice(data, p, a.r.codeSize) < MAX_CODES
    requires Moved(Step(m, a, Slice(data, p, a.r.codeSize)), sig, popped, a')
    ensures Advance(m, data, p, a) == if sig == Go then On(popped, p + a.r.codeSize, a')
                                      else Ends(Result([], if sig == Stopped then Halted else Thrown))
  {
    hide Sound, Step, Slice;
  }

  lemma ProgressOn(k: Task, a: Machine, p: nat, shown: seq<byte>, popped: seq<byte>, q: nat, a': Machine)
    requires Sound(k.m, a) && Sound(k.m, a') && Progress(k, a, p, shown)
    requires Run(k.m, k.data, p, a) == Before(popped, Run(k.m, k.data, q, a'))
    ensures Progress(k, a', q, shown + popped)
  {
    hide Sound, Run;
    BeforeTwice(shown, popped, Run(k.m, k.data, q, a'));
  }

  lemma ProgressEnds(k: Task, a: Machine, p: nat, shown: seq<byte>, halt: Halt)
    requires Sound(k.m, a) && Progress(k, a, p, shown) && |shown| < k.npix && Run(k.m, k.data, p, a) == Result([], halt)
    ensures EndsAs(k.o, k.npix, halt.Thrown?, halt.DataOver?, shown)
  {
    hide Sound, Run, EndsAs;
    EndsShort(k.o, k.npix, shown, Result([], halt));
  }

  /** One code acted on, as the machine does it. */
  lemma MovedOn(k: Task, a: Machine, p: nat, shown: seq<byte>, sig: Signal, popped: seq<byte>, a': Machine)
    requires Sound(k.m, a) && Progress(k, a, p, shown) && |shown| < k.npix
    requires p + a.r.codeSize <= 8 * |k.data| && Slice(k.data, p, a.r.codeSize) < MAX_CODES
    requires Moved(Step(k.m, a, Slice(k.data, p, a.r.codeSize)), sig, popped, a')
    ensures sig == Go ==> Sound(k.m, a') && Progress(k, a', p + a.r.codeSize, shown + popped)
    ensures sig != Go ==> EndsAs(k.o, k.npix, sig == Threw, false, shown)
  {
    hide *;
    AdvanceMoved(k.m, k.data, p, a, sig, popped, a');
    RunOne(k.m, k.data, p, a);
    if sig == Go {
      ProgressOn(k, a, p, shown, popped, p + a.r.codeSize, a');
    } else {
      ProgressEnds(k, a, p, shown, if sig == Stopped then Halted else Thrown);
    }
  }

  class GifDecoder {
    const stream: seq<byte>
    var pos: nat
    var status: int

    var width: nat
    var height: nat

    var bgIndex: int
    var pixelAspect: int

    var gct: array?<int>
    var lct: array?<int>
    var act: array?<int>

    var ix: nat
    var iy: nat
    var iw: nat
    var ih: nat
    var interlace: bool

    const block: array<byte>
    var blockSize: int

    var dispose: nat
    var transparency: bool
    var delay: nat
    var transIndex: byte

    const prefix: array<entry>
    const suffix: array<byte>
    const pixelStack: array<byte>
    var pixels: array?<byte>

    var loopCount: int

    var frames: seq<Frame>
    var frameCount: nat

    /** The working arrays are of the right sizes and are different arrays. */
    ghost predicate Valid()
      reads this`gct, this`pixels
    {
      && block.Length == 256 && (gct != null ==> gct.Length == 256)
      && prefix.Length == suffix.Length == MAX_STACK_SIZE && pixelStack.Length == MAX_STACK_SIZE + 1
      && Different(block, prefix, suffix, pixelStack, pixels, gct)
    }

    /** The array is none of those that decoding an image changes. */
    ghost predicate Untouched(a: array<int>)
      reads this`pixels
    {
      a as object != block && a as object != prefix && a as object != suffix && a as object != pixelStack &&
          a as object? != pixels
    }

    /** `Read()`: the next byte, or -1 at the end of the stream. */
    method Read() returns (curByte: int)
      requires pos <= |stream|
      modifies this`pos
      ensures pos <= |stream|
      ensures if old(pos) == |stream| then curByte == -1 && pos == old(pos)
              else curByte == stream[old(pos)] && pos == old(pos) + 1
    {
      if pos == |stream| {
        return -1;
      }
      curByte := stream[pos];
      pos := pos + 1;
    }

    /** `inStream.Read(block, offset, len)`: copies as many bytes as it likes, but at least one of
        those that are there. */
    method ReadInto(offset: nat, len: nat, want: nat) returns (count: nat)
      requires pos <= |stream| && offset + len <= block.Length
      modifies this`pos, block
      ensures count == Delivered(want, len, |stream| - old(pos)) && pos == old(pos) + count <= |stream|
      ensures block[..] == Overwritten(old(block[..]), offset, stream[old(pos)..pos])
    {
      count := Delivered(want, len, |stream| - pos);
      forall k | 0 <= k < count {
        block[offset + k] := stream[pos + k];
      }
      pos := pos + count;
    }

    /** Reads the next sub-block into `block`, in as many reads as it takes; returns its size, 0
        at a terminator and at the end of the stream. */
    method ReadBlock() returns (n: nat)
      requires Framed(stream, pos) && block.Length == 256
      modifies this`pos, this`blockSize, block
      ensures pos <= |stream|
      ensures old(pos) == |stream| ==> blockSize == -1 && n == 0 && pos == old(pos)
      ensures old(pos) < |stream| ==> blockSize == n == stream[old(pos)] && pos == old(pos) + 1 + n
      ensures block[..] == Overwritten(old(block[..]), 0, stream[pos - n..pos])
    {
      blockSize := Read();
      n := 0;
      OverwriteNothing(block[..], stream, pos);
      if blockSize > 0 {
        ghost var _ := FillBlock(blockSize);
        n := blockSize;
        // The loop leaves no byte of the sub-block unread: the test for a short block never succeeds.
      }
    }

    /** Lines 564-571: the read loop, here with the bytes it needs; the other case is that of
        `ReadLoopEndsIffBytesExist`. `wants` are the sizes that the reads chose. */
    method FillBlock(size: nat) returns (ghost wants: seq<nat>)
      requires pos + size <= |stream| && size <= block.Length
      modifies this`pos, block
      ensures pos == old(pos) + size && block[..] == Overwritten(old(block[..]), 0, stream[old(pos)..pos])
      ensures Filled(wants, size, |stream| - old(pos)) == size && |wants| <= size
    {
      var n := 0;
      ghost var start, block0, got := pos, block[..], [];
      wants := [];
      OverwriteNothing(block0, stream, start);
      NothingFilled(size, |stream| - start);
      hide *;
      while n < size
        invariant n <= size && pos == start + n && |got| == n && got == stream[start..pos]
        invariant n == Filled(wants, size, |stream| - start) && |wants| <= n
        invariant block[..] == Overwritten(block0, 0, got)
      {
        ghost var p := pos;
        var want: nat := *;
        SomeDelivered(want, size - n, |stream| - pos);
        var count := ReadInto(n, size - n, want);
        FilledMore(wants, want, size, |stream| - start);
        wants := wants + [want];
        OverwriteMore(block0, got, stream[p..pos]);
        SliceJoin(stream, start, p, pos);
        got := got + stream[p..pos];
        n := n + count;
      }
    }

    /** The loop invariant of image decoding: the buffered bits are those from bit `h.p` on, and from
        there the arrays and counters deliver what the pixels shown and stacked lack. */
    ghost predicate Decoding(k: Task, a: Arrays, r: Registers, input: Input, top: nat, pi: nat, h: History)
      reads this, block, a.prefix, a.suffix, a.stack, a.pixels
    {
      && block.Length == 256 && Separate(block, a) && pi <= k.npix <= a.pixels.Length && top <= a.stack.Length
      && Unread(stream, pos, k.end, k.data, h.loaded, block[..], input.bi, input.count)
      && Buffered(k.data, h.loaded, h.p, input.bits, input.datum) && input.bits <= 19
      && Sound(k.m, Machine(r, a.prefix[..], a.suffix[..]))
      && Progress(k, Machine(r, a.prefix[..], a.suffix[..]), h.p, a.pixels[..pi] + Popped(a.stack[..top]))
    }

    /** When decoding ends: the decoded pixels, and where the cursor is. It is past the terminator
        when the data ran out, else in front of a part of the chain. */
    ghost predicate Finished(k: Task, threw: bool, ranOut: bool, shown: seq<byte>)
      reads this
    {
      |shown| <= k.npix && EndsAs(k.o, k.npix, threw, ranOut, shown) && Within(stream, pos, k.end, ranOut)
    }

    /** The next data byte, from the current sub-block or the one after it; `more` is false when
        there is none. */
    method NextByte(bi0: nat, count0: nat, ghost end: nat, ghost data: seq<byte>, ghost loaded: nat)
      returns (more: bool, b: byte, bi: nat, count: nat)
      requires block.Length == 256 && Unread(stream, pos, end, data, loaded, block[..], bi0, count0)
      modifies this`pos, this`blockSize, block
      ensures more ==> loaded < |data| && b == data[loaded]
      ensures more ==> Unread(stream, pos, end, data, loaded + 1, block[..], bi, count)
      ensures !more ==> loaded == |data| && pos == end <= |stream|
    {
      hide *;
      bi, count := bi0, count0;
      if count == 0 {
        UnreadChain(stream, pos, end, data, loaded, block[..], bi, count);
        ghost var pos0, block0 := pos, block[..];
        count := ReadBlock();
        OverwrittenPrefix(block0, stream[pos - count..pos]);
        UnreadNext(stream, pos0, end, data, loaded, block[..], count);
        if count <= 0 {
          return false, 0, bi, count;
        }
        bi := 0;
      }
      UnreadByte(stream, pos, end, data, loaded, block[..], bi, count);
      b := block[bi];
      bi, count := bi + 1, count - 1;
      return true, b, bi, count;
    }

    /** Lines 426-442: too few bits for a code, so one more byte joins them. */
    method LoadByte(ghost k: Task, ghost a: Arrays, ghost r: Registers, i0: Input, ghost pi: nat, ghost h: History)
      returns (more: bool, input: Input, ghost h': History)
      requires Decoding(k, a, r, i0, 0, pi, h) && i0.bits < r.codeSize && pi < k.npix
      modifies this`pos, this`blockSize, block
      ensures more ==> Decoding(k, a, r, input, 0, pi, h') && Consumed(k, input, h', i0, h)
      ensures !more ==> Finished(k, false, true, a.pixels[..pi])
    {
      ghost var machine, shown := Machine(r, a.prefix[..], a.suffix[..]), a.pixels[..pi];
      DecodingParts(k, a, r, i0, pi, h);
      hide *;
      var b, bi, count;
      h' := h;
      more, b, bi, count := NextByte(i0.bi, i0.count, k.end, k.data, h.loaded);
      input := Input(i0.datum, i0.bits, bi, count);
      if more {
        LoadStep(k.data, h.loaded, h.p, i0.bits, i0.datum);
        input := Input(i0.datum + Shl(b, i0.bits), i0.bits + 8, bi, count);
        h' := h.(loaded := h.loaded + 1);
        DecodingAgain(k, a, r, input, pi, h');
        LessInput(k, input, h', i0, h);
      } else {
        BufferedEnd(k.data, h.loaded, h.p, i0.bits, i0.datum);
        DataEnds(k, machine, h.p, shown);
        WithinEnd(stream, pos, k.end);
        FinishedAgain(k, false, true, shown);
      }
    }

    lemma DecodingParts(k: Task, a: Arrays, r: Registers, input: Input, pi: nat, h: History)
      requires Decoding(k, a, r, input, 0, pi, h) && input.bits < r.codeSize
      ensures block.Length == 256 && Separate(block, a) && pi <= k.npix <= a.pixels.Length
      ensures a.prefix.Length == a.suffix.Length == MAX_CODES
      ensures Unread(stream, pos, k.end, k.data, h.loaded, block[..], input.bi, input.count)
      ensures Buffered(k.data, h.loaded, h.p, input.bits, input.datum) && input.bits < 12
      ensures Sound(k.m, Machine(r, a.prefix[..], a.suffix[..]))
      ensures Progress(k, Machine(r, a.prefix[..], a.suffix[..]), h.p, a.pixels[..pi])
    {
      CodeFits(k.m, k.data, h.p, Machine(r, a.prefix[..], a.suffix[..]));
      NothingStacked(a.pixels[..pi], a.stack[..]);
      hide Sound, Buffered, Progress, Unread, Popped, Slice;
    }

    lemma DecodingAgain(k: Task, a: Arrays, r: Registers, input: Input, pi: nat, h: History)
      requires block.Length == 256 && Separate(block, a) && pi <= k.npix <= a.pixels.Length
      requires Unread(stream, pos, k.end, k.data, h.loaded, block[..], input.bi, input.count)
      requires Buffered(k.data, h.loaded, h.p, input.bits, input.datum) && input.bits <= 19
      requires Sound(k.m, Machine(r, a.prefix[..], a.suffix[..]))
      requires Progress(k, Machine(r, a.prefix[..], a.suffix[..]), h.p, a.pixels[..pi])
      ensures Decoding(k, a, r, input, 0, pi, h)
    {
      NothingStacked(a.pixels[..pi], a.stack[..]);
      hide Sound, Buffered, Progress, Unread, Popped;
    }

    lemma FinishedAgain(k: Task, threw: bool, ranOut: bool, shown: seq<byte>)
      requires |shown| <= k.npix && EndsAs(k.o, k.npix, threw, ranOut, shown) && Within(stream, pos, k.end, ranOut)
      ensures Finished(k, threw, ranOut, shown)
    {
    }

    /** Lines 446-498: takes one code off the buffered bits and acts on it. */
    static method NextCode(ghost k: Task, m: nat, a: Arrays, r0: Registers, datum0: nat32, bits0: nat,
                           ghost h: History, ghost shown: seq<byte>)
      returns (sig: Signal, r: Registers, datum: nat32, bits: nat, top: nat, ghost h': History)
      requires a.prefix.Length == a.suffix.Length == MAX_CODES && a.stack.Length == MAX_STACK_SIZE + 1
      requires a.suffix != a.stack && a.suffix as object != a.prefix && a.stack as object != a.prefix
      requires m == k.m && r0.codeSize <= bits0 && |shown| < k.npix
      requires Buffered(k.data, h.loaded, h.p, bits0, datum0)
      requires Sound(m, Machine(r0, a.prefix[..], a.suffix[..]))
      requires Progress(k, Machine(r0, a.prefix[..], a.suffix[..]), h.p, shown)
      modifies a.prefix, a.suffix, a.stack
      ensures h'.loaded == h.loaded && bits < bits0 && top <= a.stack.Length
      ensures Buffered(k.data, h'.loaded, h'.p, bits, datum)
      ensures sig == Go ==> Sound(m, Machine(r, a.prefix[..], a.suffix[..]))
      ensures sig == Go ==>
                Progress(k, Machine(r, a.prefix[..], a.suffix[..]), h'.p, shown + Popped(a.stack[..top]))
      ensures sig != Go ==> EndsAs(k.o, k.npix, sig == Threw, false, shown)
    {
      hide *;
      ghost var machine := Machine(r0, a.prefix[..], a.suffix[..]);
      CodeFits(m, k.data, h.p, machine);
      BufferedEnd(k.data, h.loaded, h.p, bits0, datum0);
      TakeStep(k.data, h.loaded, h.p, bits0, datum0, r0.codeSize);
      CodesFit();
      var code := BitAnd(datum0, r0.codeMask);
      datum := Shr(datum0, r0.codeSize);
      bits := bits0 - r0.codeSize;
      sig, r, top := LzwDecoder.Interpret(m, r0, code, a.prefix, a.suffix, a.stack);
      h' := History(h.loaded, h.p + r0.codeSize);
      StepSound(m, machine, code);
      MovedOn(k, machine, h.p, shown, sig, Popped(a.stack[..top]), Machine(r, a.prefix[..], a.suffix[..]));
    }

    method TakeCode(ghost k: Task, m: nat, a: Arrays, r0: Registers, i0: Input, ghost pi: nat, ghost h: History)
      returns (sig: Signal, r: Registers, input: Input, top: nat, ghost h': History)
      requires Decoding(k, a, r0, i0, 0, pi, h) && r0.codeSize <= i0.bits && pi < k.npix && m == k.m
      modifies a.prefix, a.suffix, a.stack
      ensures sig == Go ==> Decoding(k, a, r, input, top, pi, h') && Consumed(k, input, h', i0, h)
      ensures sig != Go ==> Finished(k, sig == Threw, false, a.pixels[..pi])
    {
      NothingStacked(a.pixels[..pi], a.stack[..]);
      UnreadChain(stream, pos, k.end, k.data, h.loaded, block[..], i0.bi, i0.count);
      hide Sound, Buffered, Progress, Popped, EndsAs;
      ghost var shown := a.pixels[..pi];
      var datum, bits;
      sig, r, datum, bits, top, h' := NextCode(k, m, a, r0, i0.datum, i0.bits, h, shown);
      input := i0.(datum := datum, bits := bits);
      assert a.pixels[..pi] == shown;
    }

    /** Lines 502-504: moves the top of the stack to the pixels. */
    method PopPixel(ghost k: Task, a: Arrays, ghost r: Registers, ghost input: Input, top0: nat, pi0: nat,
                    ghost h: History)
      returns (top: nat, pi: nat)
      requires Decoding(k, a, r, input, top0, pi0, h) && pi0 < k.npix && top0 > 0
      modifies a.pixels
      ensures Decoding(k, a, r, input, top, pi, h) && pi == pi0 + 1
    {
      PopStep(a.pixels[..], pi0, a.stack[..], top0);
      hide Sound, Buffered, Progress, Unread, Popped;
      ghost var shown := a.pixels[..];
      top := top0 - 1;
      a.pixels[pi0] := a.stack[top];
      pi := pi0 + 1;
      assert a.pixels[..] == shown[pi0 := a.stack[top]];
      assert a.pixels[..pi] == a.pixels[..][..pi];
    }

    /** Lines 418-505: decodes the chain of sub-blocks at the cursor into the pixels, until they are
        full or decoding stops; `pi` pixels are then decoded. */
    method DecodePixels(ghost k: Task, m: nat, npix: nat, a: Arrays)
      returns (threw: bool, pi: nat, ghost ranOut: bool)
      requires k.m == m && k.npix == npix
      requires Decoding(k, a, Start(m), Input(0, 0, 0, 0), 0, 0, History(0, 0))
      modifies this`pos, this`blockSize, block, a.prefix, a.suffix, a.stack, a.pixels
      ensures pi <= a.pixels.Length && Finished(k, threw, ranOut, a.pixels[..pi])
    {
      ghost var h := History(0, 0);
      var r, input, top := Start(m), Input(0, 0, 0, 0), 0;
      threw, pi, ranOut := false, 0, false;
      assert npix <= a.pixels.Length;
      hide Decoding, Finished;
      while pi < npix
        invariant Decoding(k, a, r, input, top, pi, h) && pi <= npix
        decreases npix - pi, 8 * (|k.data| - h.loaded) + input.bits, |k.data| - h.loaded
      {
        if top == 0 {
          if input.bits < r.codeSize {
            var more;
            more, input, h := LoadByte(k, a, r, input, pi, h);
            if !more {
              ranOut := true;
              return;
            }
            continue;
          }
          var sig;
          sig, r, input, top, h := TakeCode(k, m, a, r, input, pi, h);
          match sig
          case Stopped => return;
          case Threw => return true, pi, false;
          case Go => continue;
        }
        top, pi := PopPixel(k, a, r, input, top, pi, h);
      }
      DecodingFull(k, a, r, input, top, pi, h);
    }

    lemma DecodingFull(k: Task, a: Arrays, r: Registers, input: Input, top: nat, pi: nat, h: History)
      requires Decoding(k, a, r, input, top, pi, h) && pi == k.npix
      ensures Finished(k, false, false, a.pixels[..pi])
    {
      UnreadChain(stream, pos, k.end, k.data, h.loaded, block[..], input.bi, input.count);
      EndsFull(k.o, a.pixels[..pi], Popped(a.stack[..top]),
               Run(k.m, k.data, h.p, Machine(r, a.prefix[..], a.suffix[..])));
      hide Sound, EndsAs, Unread, Buffered, Run, Popped;
    }

    /** What cell clear + 2 of the suffix array holds before an image of code size m. */
    ghost function StaleByte(m: nat): byte
      requires 2 <= m <= 11 && suffix.Length == MAX_CODES
      reads suffix
    {
      CountersStart(m);
      suffix[Clear(m) + 2]
    }

    /** Lines 395-398: `pixels` is allocated anew when it is too small. */
    method AllocatePixels(npix: nat)
      requires Valid()
      modifies this`pixels
      ensures Valid() && pixels != null && pixels.Length >= npix
      ensures pixels == old(pixels) || fresh(pixels)
    {
      if pixels == null || pixels.Length < npix {
        pixels := new byte[npix](_ => 0);
      }
    }

    /** Lines 412-416: every code below clear stands for itself. */
    static method InitTable(clear: nat, prefix: array<entry>, suffix: array<byte>)
      requires clear <= prefix.Length == suffix.Length == MAX_CODES && prefix as object != suffix
      modifies prefix, suffix
      ensures forall c | 0 <= c < clear :: suffix[c] == c % 256 && prefix[c] == 0
      ensures forall c | clear <= c < MAX_CODES :: suffix[c] == old(suffix[c]) && prefix[c] == old(prefix[c])
    {
      var code := 0;
      while code < clear
        invariant code <= clear
        invariant forall c | 0 <= c < code :: suffix[c] == c % 256 && prefix[c] == 0
        invariant forall c | code <= c < MAX_CODES :: suffix[c] == old(suffix[c]) && prefix[c] == old(prefix[c])
      {
        prefix[code] := 0;
        suffix[code] := code % 256;
        code := code + 1;
      }
    }

    /** Lines 507-510: missing pixels are zero. */
    static method ClearMissing(pixels: array<byte>, pi: nat, npix: nat)
      requires pi <= npix <= pixels.Length
      modifies pixels
      ensures pixels[..npix] == old(pixels[..pi]) + seq(npix - pi, _ => 0)
    {
      var i := pi;
      while i < npix
        invariant pi <= i <= npix
        invariant pixels[..i] == old(pixels[..pi]) + seq(i - pi, _ => 0)
      {
        pixels[i] := 0;
        i := i + 1;
      }
    }

    /** Lines 405-416: the arrays and counters are those of the machine at its start. */
    static method StartMachine(m: nat, a: Arrays)
      requires 2 <= m <= 11 && Clear(m) + 2 < MAX_CODES && a.prefix.Length == a.suffix.Length == MAX_CODES
      requires a.prefix as object != a.suffix
      modifies a.prefix, a.suffix
      ensures Machine(Start(m), a.prefix[..], a.suffix[..]) == SetUp(m, old(a.prefix[..]), old(a.suffix[..]))
    {
      var clear := Shl(1, m);
      ShlOne(m);
      InitTable(clear, a.prefix, a.suffix);
    }

    /** The image task k is that of the data at the cursor, past the code size, and of these arrays. */
    ghost predicate TaskOk(k: Task, a: Arrays)
      reads this`pos, a.prefix, a.suffix
    {
      && block.Length == 256 && Separate(block, a) && k.npix <= a.pixels.Length && 2 <= k.m <= 11
      && Framed(stream, pos) && k.data == Payload(stream, pos) && k.end == ChainEnd(stream, pos)
      && Clear(k.m) + 2 < MAX_CODES && Sound(k.m, SetUp(k.m, a.prefix[..], a.suffix[..]))
      && k.o == Run(k.m, k.data, 0, SetUp(k.m, a.prefix[..], a.suffix[..]))
    }

    /** The start of decoding satisfies the loop invariant. */
    method StartDecoding(ghost k: Task, m: nat, a: Arrays)
      requires TaskOk(k, a) && m == k.m
      modifies a.prefix, a.suffix
      ensures Decoding(k, a, Start(m), Input(0, 0, 0, 0), 0, 0, History(0, 0))
    {
      hide Sound, Unread, Buffered, Run, Popped, SetUp;
      StartMachine(m, a);
      UnreadStart(stream, pos, block[..]);
      NothingBuffered(k.data);
      NothingShown(a.pixels[..], a.stack[..]);
      BeforeNothing(k.o);
      assert a.pixels[..0] == a.pixels[..][..0] && a.stack[..0] == a.stack[..][..0];
    }

    /** Lines 405-510, on arrays that are allocated. */
    method DecodeInto(ghost k: Task, m: nat, npix: nat, a: Arrays) returns (threw: bool, ghost ranOut: bool)
      requires TaskOk(k, a) && m == k.m && npix == k.npix <= a.pixels.Length
      modifies this`pos, this`blockSize, block, a.prefix, a.suffix, a.stack, a.pixels
      ensures PixelsOfResult(k.o, npix, threw, a.pixels[..npix]) && Within(stream, pos, k.end, ranOut)
      ensures EndsAs(k.o, npix, threw, ranOut, if Falls(k.o, npix) then k.o.out else k.o.out[..npix])
    {
      hide *;
      TaskArrays(k, a);
      StartDecoding(k, m, a);
      var pi;
      threw, pi, ranOut := DecodePixels(k, m, npix, a);
      FinishedIs(k, threw, ranOut, a.pixels[..pi]);
      FillUp(a.pixels, pi, npix, threw, k.o, ranOut);
    }

    lemma TaskArrays(k: Task, a: Arrays)
      requires TaskOk(k, a)
      ensures Separate(block, a) && block.Length == 256 && 2 <= k.m <= 11
    {
      hide Separate, Sound, Run, SetUp, Framed, Payload, ChainEnd;
    }

    lemma FinishedIs(k: Task, threw: bool, ranOut: bool, shown: seq<byte>)
      requires Finished(k, threw, ranOut, shown)
      ensures EndsAs(k.o, k.npix, threw, ranOut, shown) && Within(stream, pos, k.end, ranOut) && |shown| <= k.npix
      ensures EndsAs(k.o, k.npix, threw, ranOut, if Falls(k.o, k.npix) then k.o.out else k.o.out[..k.npix])
      ensures !Falls(k.o, k.npix) ==> |k.o.out| >= k.npix
    {
      EndsHow(k.o, k.npix, threw, ranOut, shown);
      hide EndsAs, Within;
    }

    /** Lines 507-510, unless an exception has left the image as it is. */
    static method FillUp(pixels: array<byte>, pi: nat, npix: nat, threw: bool, ghost o: Result, ghost ranOut: bool)
      requires pi <= npix <= pixels.Length && EndsAs(o, npix, threw, ranOut, pixels[..pi])
      modifies pixels
      ensures PixelsOfResult(o, npix, threw, pixels[..npix])
    {
      hide *;
      ghost var shown := pixels[..pi];
      if threw {
        assert shown <= pixels[..npix];
        EndsPadded(o, npix, threw, ranOut, shown, pixels[..npix]);
      } else {
        ClearMissing(pixels, pi, npix);
        EndsPadded(o, npix, threw, ranOut, shown, pixels[..npix]);
      }
    }

    /** What decoding an image leaves: the pixels of the machine's result `o`, and the cursor. */
    ghost predicate Decoded(o: Result, npix: nat, end: nat, threw: bool, ranOut: bool)
      reads this`pos, this`pixels, pixels
    {
      && pixels != null && npix <= pixels.Length && PixelsOfResult(o, npix, threw, pixels[..npix])
      && threw == (Falls(o, npix) && o.halt.Thrown?) && ranOut == (Falls(o, npix) && o.halt.DataOver?)
      && Within(stream, pos, end, ranOut)
    }

    /** The same by the reference decoder: for data whose first codes are literals the pixels are
        its pixels, cut or filled up with zeros. Otherwise the first wrong pixel is what the first
        free code's cell holds: a byte learned earlier in this image, if there was one, else an old
        one. */
    ghost predicate DecodedAs(o: Outcome, npix: nat, stale: byte, threw: bool, ranOut: bool)
      reads this`pixels, pixels
    {
      && pixels != null && npix <= pixels.Length && PixelsAs(o, npix, stale, threw, pixels[..npix])
      && RanOutAs(o, npix, ranOut)
    }

    /** Decodes the image data at the cursor into `pixels`. All of it is what the machine makes of the
        data and of the arrays as earlier images left them; `LzwStale.IndependentIff` says when
        the arrays matter. */
    method DecodeImageData() returns (threw: bool, ghost ranOut: bool)
      requires Valid() && Area(iw, ih) < 0x8000_0000
      requires pos < |stream| && 2 <= stream[pos] <= 11 && Framed(stream, pos + 1)
      modifies this`pos, this`blockSize, this`pixels
      modifies block, prefix, suffix, pixelStack, pixels
      ensures Valid() && (pixels == old(pixels) || fresh(pixels))
      ensures Decoded(old(ImageMachine()), Area(iw, ih), ChainEnd(stream, old(pos) + 1), threw, ranOut)
      ensures DecodedAs(ImageOutcome(stream, old(pos)), Area(iw, ih), old(StaleByte(stream[pos])), threw, ranOut)
    {
      hide *;
      var npix := Area(iw, ih);
      ghost var pos0, P, S := pos, prefix[..], suffix[..];
      ArraySizes();
      ImageIs();
      AllocatePixels(npix);
      SeparateArrays();
      var dataSize := Read();
      ghost var o, end := ImageResult(stream, pos0, P, S), ChainEnd(stream, pos0 + 1);
      ghost var stale := S[Clear(stream[pos0]) + 2];
      ghost var k := Task(stream[pos0], npix, Payload(stream, pos0 + 1), end, o);
      TaskReady(k, Arrays(prefix, suffix, pixelStack, pixels), pos0);
      ImageRefines(stream, pos0, P, S);
      threw, ranOut := DecodeInto(k, dataSize, npix, Arrays(prefix, suffix, pixelStack, pixels));
      DecodedBoth(o, ImageOutcome(stream, pos0), npix, stale, end, threw, ranOut);
    }

    lemma ArraySizes()
      requires Valid()
      ensures prefix.Length == suffix.Length == MAX_CODES == 4096 && block.Length == 256
    {
      hide Different;
    }

    lemma MachineIs()
      requires pos < |stream| && 2 <= stream[pos] <= 11 && Framed(stream, pos + 1)
      requires prefix.Length == suffix.Length == MAX_CODES
      ensures ImageMachine() == ImageResult(stream, pos, prefix[..], suffix[..])
    {
      hide ImageResult, Framed;
    }

    lemma StaleIs(m: nat)
      requires 2 <= m <= 11 && suffix.Length == MAX_CODES
      ensures Clear(m) + 2 < MAX_CODES && StaleByte(m) == suffix[Clear(m) + 2]
    {
      hide Pow2, Clear, CountersOk;
      CountersStart(m);
    }

    lemma ImageIs()
      requires pos < |stream| && 2 <= stream[pos] <= 11 && Framed(stream, pos + 1)
      requires prefix.Length == suffix.Length == MAX_CODES
      ensures ImageMachine() == ImageResult(stream, pos, prefix[..], suffix[..])
      ensures Clear(stream[pos]) + 2 < MAX_CODES && StaleByte(stream[pos]) == suffix[Clear(stream[pos]) + 2]
    {
      hide *;
      MachineIs();
      StaleIs(stream[pos]);
    }

    lemma TaskReady(k: Task, a: Arrays, pos0: nat)
      requires Separate(block, a) && block.Length == 256 && k.npix <= a.pixels.Length && pos == pos0 + 1
      requires pos0 < |stream| && 2 <= stream[pos0] <= 11 && Framed(stream, pos0 + 1)
      requires a.prefix.Length == a.suffix.Length == MAX_CODES
      requires k == Task(stream[pos0], k.npix, Payload(stream, pos0 + 1), ChainEnd(stream, pos0 + 1),
                         ImageResult(stream, pos0, a.prefix[..], a.suffix[..]))
      ensures TaskOk(k, a)
    {
      SetUpSound(stream[pos0], a.prefix[..], a.suffix[..]);
      hide Separate, Sound, Run, SetUp, Framed, Payload, ChainEnd, Represents, Pow2;
    }

    /** What the machine makes of the image data at the cursor and the arrays as they are. */
    ghost function ImageMachine(): Result
      requires pos < |stream| && 2 <= stream[pos] <= 11 && Framed(stream, pos + 1)
      requires prefix.Length == suffix.Length == MAX_CODES
      reads this`pos, prefix, suffix
    {
      ImageResult(stream, pos, prefix[..], suffix[..])
    }

    lemma DecodedBoth(o: Result, reference: Outcome, npix: nat, stale: byte, end: nat, threw: bool, ranOut: bool)
      requires pixels != null && npix <= pixels.Length && PixelsOfResult(o, npix, threw, pixels[..npix])
      requires EndsAs(o, npix, threw, ranOut, if Falls(o, npix) then o.out else o.out[..npix])
      requires Within(stream, pos, end, ranOut) && Refines(o, reference, stale)
      ensures Decoded(o, npix, end, threw, ranOut) && DecodedAs(reference, npix, stale, threw, ranOut)
    {
      hide PixelsOfResult, Within, Refines, PixelsAs, RanOutAs;
      ResultRefines(o, reference, npix, stale, threw, ranOut, pixels[..npix]);
    }

    lemma SeparateArrays()
      requires Valid() && pixels != null
      ensures Separate(block, Arrays(prefix, suffix, pixelStack, pixels))
    {
    }

    predicate Error()
      reads this`status
    {
      status != STATUS_OK
    }

    /** Skips the chain of sub-blocks at the cursor, terminator included. */
    method Skip()
      requires block.Length == 256 && Framed(stream, pos) && !Error()
      modifies this`pos, this`blockSize, block
      ensures pos == ChainEnd(stream, old(pos)) <= |stream|
    {
      ghost var end := ChainEnd(stream, pos);
      while true
        invariant Framed(stream, pos) && ChainEnd(stream, pos) == end
        decreases |stream| - pos
      {
        var n := ReadBlock();
        if !(blockSize > 0 && !Error()) {
          break;
        }
      }
    }

    /** Lines 768-769: decodes the image data and skips what is left of them. Unless decoding ran
        out of data, the cursor ends up just past their terminator, whatever codes it met; after
        running out, the bytes that follow the image are taken for sub-blocks and skipped, too. An
        exception passes on. */
    method ReadImageData() returns (threw: bool, ghost ranOut: bool)
      requires Valid() && Area(iw, ih) < 0x8000_0000 && !Error()
      requires pos < |stream| && 2 <= stream[pos] <= 11 && Framed(stream, pos + 1)
      requires var o := ImageMachine();
               Falls(o, Area(iw, ih)) && o.halt.DataOver? ==> Framed(stream, ChainEnd(stream, pos + 1))
      modifies this`pos, this`blockSize, this`pixels
      modifies block, prefix, suffix, pixelStack, pixels
      ensures Valid() && (pixels == old(pixels) || fresh(pixels)) && pos <= |stream| && pixels != null
      ensures Area(iw, ih) <= pixels.Length
      ensures PixelsOfResult(old(ImageMachine()), Area(iw, ih), threw, pixels[..Area(iw, ih)])
      ensures var o, npix := old(ImageMachine()), Area(iw, ih);
              threw == (Falls(o, npix) && o.halt.Thrown?) && ranOut == (Falls(o, npix) && o.halt.DataOver?)
      ensures DecodedAs(ImageOutcome(stream, old(pos)), Area(iw, ih), old(StaleByte(stream[pos])), threw, ranOut)
      ensures var end := ChainEnd(stream, old(pos) + 1);
              !threw ==> (ranOut ==> Framed(stream, end)) && pos == if ranOut then ChainEnd(stream, end) else end
      ensures !threw ==> (pos == ChainEnd(stream, old(pos) + 1) <==>
          !ranOut || ChainEnd(stream, old(pos) + 1) == |stream|)
    {
      hide PixelsOfResult, PixelsAs, RanOutAs, Falls;
      threw, ranOut := DecodeImageData();
      if threw {
        return;
      }
      Skip();
    }

    /** Image data that fill the image, or end in it with a code that stops decoding. */
    method ReadWholeData()
      requires Valid() && Area(iw, ih) < 0x8000_0000 && !Error()
      requires pos < |stream| && 2 <= stream[pos] <= 11 && Framed(stream, pos + 1)
      requires var o, npix := ImageOutcome(stream, pos), Area(iw, ih); !MeetsNonLiteral(o, npix) && !RunsOut(o, npix)
      modifies this`pos, this`blockSize, this`pixels
      modifies block, prefix, suffix, pixelStack, pixels
      ensures Valid() && (pixels == old(pixels) || fresh(pixels)) && pos <= |stream|
      ensures pixels != null && Area(iw, ih) <= pixels.Length
      ensures pixels[..Area(iw, ih)] == Padded(ImageOutcome(stream, old(pos)).out, Area(iw, ih))
      ensures pos == ChainEnd(stream, old(pos) + 1)
    {
      hide *;
      WholeReady();
      ghost var o, npix, stale := ImageOutcome(stream, pos), Area(iw, ih), StaleByte(stream[pos]);
      var threw, ranOut := ReadImageData();
      WholePixels(o, npix, stale, threw, ranOut);
    }

    lemma WholeReady()
      requires Valid() && pos < |stream| && 2 <= stream[pos] <= 11 && Framed(stream, pos + 1)
      requires var o, npix := ImageOutcome(stream, pos), Area(iw, ih); !MeetsNonLiteral(o, npix) && !RunsOut(o, npix)
      ensures prefix.Length == suffix.Length == MAX_CODES
      ensures !(Falls(ImageMachine(), Area(iw, ih)) && ImageMachine().halt.DataOver?)
    {
      hide *;
      ArraySizes();
      ImageIs();
      ImageRefines(stream, pos, prefix[..], suffix[..]);
      NeverOver(ImageMachine(), ImageOutcome(stream, pos), Area(iw, ih), suffix[Clear(stream[pos]) + 2]);
    }

    lemma WholePixels(o: Outcome, npix: nat, stale: byte, threw: bool, ranOut: bool)
      requires DecodedAs(o, npix, stale, threw, ranOut) && !MeetsNonLiteral(o, npix) && !RunsOut(o, npix)
      ensures pixels != null && npix <= pixels.Length && pixels[..npix] == Padded(o.out, npix) && !threw && !ranOut
    {
      hide MeetsNonLiteral, RunsOut, Padded;
    }

    /** `ReadShort()`: two bytes, low byte first. A byte missing at the end of the stream reads as
        -1, all of whose bits are set. */
    method ReadShort() returns (n: int)
      requires pos <= |stream|
      modifies this`pos
      ensures old(pos) <= pos <= |stream|
      ensures old(pos) + 2 <= |stream| ==>
          pos == old(pos) + 2 && n == stream[old(pos)] as int + 0x100 * (stream[old(pos) + 1] as int)
      ensures old(pos) + 1 == |stream| ==> pos == |stream| && n == stream[old(pos)] as int - 0x100
      ensures old(pos) == |stream| ==> pos == |stream| && n == -1
    {
      var low := Read();
      var high := Read();
      n := if low < 0 then -1 else if high < 0 then low - 0x100 else low + 0x100 * high;
    }

    /** Reads a colour table; the underlying read delivers all the bytes the stream still has. */
    method ReadColorTable(ncolors: nat) returns (tab: array?<int>)
      requires pos <= |stream| && ncolors <= 256
      modifies this`pos, this`status
      ensures if old(pos) + 3 * ncolors <= |stream|
              then pos == old(pos) + 3 * ncolors && status == old(status) &&
                   tab != null && fresh(tab) && tab.Length == 256 && tab[..] == Colours(stream[old(pos)..pos])
              else pos == |stream| && status == STATUS_FORMAT_ERROR && tab == null
      ensures tab != null ==>
                forall i | 0 <= i < ncolors ::
                  var p := old(pos) + 3 * i;
                  p + 2 < |stream| && -0x100_0000 <= tab[i] < 0 && (tab[i] + 0x100_0000) / 0x1_0000 == stream[p] &&
                  (tab[i] + 0x100_0000) / 0x100 % 0x100 == stream[p + 1] && tab[i] % 0x100 == stream[p + 2]
      ensures tab != null ==> forall i | ncolors <= i < 256 :: tab[i] == 0
    {
      var nbytes := 3 * ncolors;
      var n := if pos + nbytes <= |stream| then nbytes else |stream| - pos;
      var c := stream[pos..pos + n];
      pos := pos + n;
      tab := null;
      if n < nbytes {
        status := STATUS_FORMAT_ERROR;
      } else {
        hide Colours, Colour, Mixes;
        tab := FillTable(c, ncolors);
        TableIs(c, tab[..], ncolors);
        assert c == stream[old(pos)..pos];
        forall l | 0 <= l < ncolors
          ensures -0x100_0000 <= tab[l] < 0 && (tab[l] + 0x100_0000) / 0x1_0000 == c[3 * l]
          ensures (tab[l] + 0x100_0000) / 0x100 % 0x100 == c[3 * l + 1] && tab[l] % 0x100 == c[3 * l + 2]
        {
          MixesParts(tab[l], c[3 * l], c[3 * l + 1], c[3 * l + 2]);
        }
      }
    }

    /** Lines 610-619: packs red, green and blue. */
    static method FillTable(c: seq<byte>, ncolors: nat) returns (tab: array<int>)
      requires ncolors <= 256 && |c| == 3 * ncolors
      ensures fresh(tab) && tab.Length == 256
      ensures forall l | 0 <= l < ncolors :: Mixes(tab[l], c[3 * l], c[3 * l + 1], c[3 * l + 2])
      ensures forall l | ncolors <= l < 256 :: tab[l] == 0
    {
      tab := new int[256](_ => 0);
      var i, j := 0, 0;
      hide Mixes, Colour;
      while i < ncolors
        invariant i <= ncolors && j == 3 * i
        invariant forall l | 0 <= l < i :: Mixes(tab[l], c[3 * l], c[3 * l + 1], c[3 * l + 2])
        invariant forall l | i <= l < 256 :: tab[l] == 0
      {
        MixesBytes(c[j], c[j + 1], c[j + 2]);
        var r: int, g: int, b: int := c[j], c[j + 1], c[j + 2];
        tab[i] := 0x1_0000 * r + 0x100 * g + b - 0x100_0000;
        i, j := i + 1, j + 3;
      }
    }

    /** The control in force. */
    ghost function ControlState(): Control
      reads this`dispose, this`transparency, this`delay, this`transIndex
    {
      Control(dispose, transparency, delay, transIndex)
    }

    /** The global colour table, [] when there is none. */
    ghost function Global(): seq<int>
      reads this`gct, gct
    {
      if gct == null then [] else gct[..]
    }

    method ReadGraphicControlExt(ghost b: Block)
      requires b.GraphicControl? && BlockOk(b) && At(stream, pos, [4, b.packed] + (Short(b.delay) + [b.transparent, 0]))
      modifies this`pos, this`dispose, this`transparency, this`delay, this`transIndex
      ensures pos == old(pos) + 6 <= |stream|
      ensures ControlState() == ControlAfter(old(ControlState()), b)
      ensures var packed, disposal := stream[old(pos) + 1], Shr(BitAnd(stream[old(pos) + 1], 0x1c), 2);
              dispose == (if disposal == 0 then 1 else disposal) && transparency == (BitAnd(packed, 1) != 0)
      ensures delay == 10 * (stream[old(pos) + 2] as int + 0x100 * (stream[old(pos) + 3] as int))
      ensures transIndex == stream[old(pos) + 4]
    {
      GraphicControlBytes(stream, pos, b);
      PackedBits(b.packed);
      hide BitAnd, Shr, At, Short;
      var size := Read();
      var packed := Read();
      dispose := Shr(BitAnd(packed, 0x1c), 2);
      if dispose == 0 {
        dispose := 1;
      }
      transparency := BitAnd(packed, 1) != 0;
      var hundredths := ReadShort();
      delay := hundredths * 10;
      transIndex := Read();
      var terminator := Read();
    }

    /** Lines 731-741: the image descriptor. */
    method ReadDescriptor(ghost b: Block) returns (packed: int)
      requires b.Image? && BlockOk(b) && At(stream, pos, Descriptor(b))
      modifies this`pos, this`ix, this`iy, this`iw, this`ih, this`interlace
      ensures pos == old(pos) + 9 <= |stream| && packed == b.packed
      ensures ix == b.ix && iy == b.iy && iw == b.iw && ih == b.ih && interlace == Interlaced(b.packed)
      ensures ix == stream[old(pos)] as int + 0x100 * (stream[old(pos) + 1] as int)
      ensures iy == stream[old(pos) + 2] as int + 0x100 * (stream[old(pos) + 3] as int)
      ensures iw == stream[old(pos) + 4] as int + 0x100 * (stream[old(pos) + 5] as int)
      ensures ih == stream[old(pos) + 6] as int + 0x100 * (stream[old(pos) + 7] as int)
      ensures packed == stream[old(pos) + 8] && interlace == (BitAnd(stream[old(pos) + 8], 0x40) != 0)
    {
      DescriptorBytes(stream, pos, b);
      PackedBits(b.packed);
      hide BlockOk, Descriptor, At, BitAnd, Interlaced, Shr;
      ix := ReadShort();
      iy := ReadShort();
      iw := ReadShort();
      ih := ReadShort();
      packed := Read();
      interlace := BitAnd(packed, 0x40) != 0;
    }

    /** Lines 743-750: the colour table to draw with; null when there is none. */
    method ReadActiveTable(packed: byte, ghost b: Block)
      requires b.Image? && BlockOk(b) && b.packed == packed && At(stream, pos, b.table)
      requires gct != null ==> gct.Length == 256
      modifies this`pos, this`status, this`lct, this`act
      ensures pos == old(pos) + |b.table| <= |stream| && status == old(status)
      ensures if HasTable(packed) then act != null && fresh(act) && act[..] == Colours(b.table) else act == gct
    {
      hide BlockOk, At, TableSize, Colours, Shl, Pow2, BitAnd, HasTable, Shr;
      PackedBits(packed);
      var n := Shl(2, BitAnd(packed, 7));
      TableSizes(packed);
      TableBytes(stream, pos, b);
      if BitAnd(packed, 0x80) != 0 {
        lct := ReadColorTable(n);
        act := lct;
      } else {
        act := gct;
      }
    }

    /** Three array cells per pixel of the screen can be counted in 32 bits. */
    ghost predicate ScreenOk()
      reads this`width, this`height
    {
      ScreenFits(width, height)
    }

    /** The screen contents on which an image is drawn; compositing with earlier frames is not
        modelled, so they are any contents. Three array cells per pixel are allocated. */
    method StartingContents() returns (dest: array<int>)
      requires ScreenOk()
      ensures fresh(dest) && dest.Length == 3 * Area(width, height)
    {
      var size: nat32 := 3 * Area(width, height);
      dest := new int[size];
    }

    /** Draws the decoded image, with the active colours, on the starting contents. */
    method SetPixels(ghost p: Picture) returns (before: seq<int>, dest: array<int>)
      requires ScreenOk() && p.g == Geometry(ix, iy, iw, ih, interlace, width, height) && WellSized(p)
      requires act != null && act[..] == p.colours && pixels != null && p.indices <= pixels[..]
      ensures fresh(dest) && ScreenDrawn(p, before, dest[..], ih)
    {
      dest := StartingContents();
      before := dest[..];
      CopyRows(Geometry(ix, iy, iw, ih, interlace, width, height), p, pixels, act, dest);
    }

    /** The cursor is in front of the data of image b, and the fields hold its descriptor. */
    ghost predicate AtImage(b: Block)
      reads this`pos, this`ix, this`iy, this`iw, this`ih, this`interlace
    {
      && b.Image? && BlockOk(b) && At(stream, pos, [b.codeSize] + Encode(b.data))
      && ix == b.ix && iy == b.iy && iw == b.iw && ih == b.ih && interlace == Interlaced(b.packed)
    }

    /** The active colour table, if there is one, is that of image b, with the global table given. */
    ghost predicate ActiveOk(b: Block, global: seq<int>)
      reads this`act, this`pixels, act
    {
      && b.Image? && (act != null <==> Drawable(b, global))
      && (act != null ==>
            act.Length == 256 && Untouched(act) &&
            act[..] == if HasTable(b.packed) then Colours(b.table) else global)
    }

    /** The picture p has the place and the pixels of image b. */
    ghost predicate Depicts(b: Block, p: Picture)
      reads this`width, this`height
    {
      && b.Image? && BlockOk(b) && WellSized(p) && p.indices == PixelsOf(b)
      && p.g == Geometry(b.ix, b.iy, b.iw, b.ih, Interlaced(b.packed), width, height)
    }

    /** One frame was added, and the cursor is at pos1. */
    ghost predicate AddedFrame(f: Frame, pos1: nat, frames0: seq<Frame>, count0: nat)
      reads this`pos, this`status, this`frames, this`frameCount, this`delay
    {
      !Error() && pos == pos1 && frameCount == count0 + 1 && frames == frames0 + [f] && f.delay == delay
    }

    /** No frame was added, for want of a colour table. */
    ghost predicate Rejected(frames0: seq<Frame>, count0: nat)
      reads this`status, this`frames, this`frameCount
    {
      status == STATUS_FORMAT_ERROR && frames == frames0 && frameCount == count0
    }

    /** What becomes of image b, whose data end at pos1. */
    ghost predicate ImageDone(b: Block, global: seq<int>, f: Frame, pos1: nat, frames0: seq<Frame>, count0: nat)
      reads this`pos, this`status, this`frames, this`frameCount, this`dispose, this`transparency, this`delay
      reads this`transIndex, this`width, this`height
    {
      b.Image? &&
      if Drawable(b, global) then
        AddedFrame(f, pos1, frames0, count0) && Shows(f, b, ControlState(), global, width, height)
      else Rejected(frames0, count0)
    }

    /** Lines 731-750: the image descriptor and the colour table to draw with. */
    method ReadImageHead(ghost b: Block, ghost global: seq<int>)
      requires Valid() && b.Image? && BlockOk(b) && global == Global()
      requires At(stream, pos, Descriptor(b) + (b.table + ([b.codeSize] + Encode(b.data))))
      modifies this`pos, this`status, this`lct, this`act, this`ix, this`iy, this`iw, this`ih, this`interlace
      ensures pos == old(pos) + TableEnd(b) && status == old(status)
      ensures AtImage(b) && ActiveOk(b, global) && (act == gct || fresh(act))
    {
      hide *;
      ImageParts(stream, pos, b);
      DrawableImage(b, global);
      TableEndIs(b);
      GlobalTable();
      var packed := ReadDescriptor(b);
      ReadActiveTable(packed, b);
      if act != null && act != gct {
        FreshUntouched();
      }
      HeadRead(b, global);
    }

    lemma HeadRead(b: Block, global: seq<int>)
      requires b.Image? && BlockOk(b) && At(stream, pos, [b.codeSize] + Encode(b.data))
      requires ix == b.ix && iy == b.iy && iw == b.iw && ih == b.ih && interlace == Interlaced(b.packed)
      requires Drawable(b, global) <==> HasTable(b.packed) || |global| == 256
      requires act != null ==> act.Length == 256 && Untouched(act)
      requires if HasTable(b.packed) then act != null && act[..] == Colours(b.table)
               else if act == null then global == [] else act[..] == global
      ensures AtImage(b) && ActiveOk(b, global)
    {
      hide BlockOk, At, Encode, Untouched, Drawable, Colours, HasTable;
    }

    twostate lemma FreshUntouched()
      requires act != null && fresh(act) && pixels == old(pixels)
      ensures Untouched(act)
    {
    }

    /** Reads and draws one image; `b` is the image descriptor, table and data at the cursor. */
    method ReadImage(ghost b: Block) returns (ghost f: Frame)
      requires Valid() && !Error() && ScreenOk()
      requires b.Image? && BlockOk(b) && (transparency ==> Drawable(b, Global()))
      requires At(stream, pos, Descriptor(b) + (b.table + ([b.codeSize] + Encode(b.data))))
      modifies this, block, gct, prefix, suffix, pixelStack, pixels
      ensures unchanged(`gct, `width, `height, `dispose, `transparency, `delay, `transIndex, `loopCount)
      ensures Valid() && (gct != null ==> gct[..] == old(gct[..]))
      ensures pixels == old(pixels) || fresh(pixels)
      ensures ImageDone(b, old(Global()), f, DataEnd(b, old(pos) + TableEnd(b)), old(frames), old(frameCount))
    {
      hide *;
      ReadImageHead(b, Global());
      ActiveNeeded(b, old(Global()));
      f := DrawActive(b, old(Global()));
    }

    lemma ActiveNeeded(b: Block, global: seq<int>)
      requires ActiveOk(b, global)
      ensures act != null <==> Drawable(b, global)
    {
      hide Drawable, Untouched, Colours;
    }

    lemma GlobalTable()
      requires Valid()
      ensures gct == null ==> Global() == []
      ensures gct != null ==> gct.Length == 256 == |Global()| && Global() == gct[..] && Untouched(gct)
    {
    }

    /** Lines 754-789: draws the image with the active colour table, if there is one. */
    method DrawActive(ghost b: Block, ghost global: seq<int>) returns (ghost f: Frame)
      requires Valid() && !Error() && ScreenOk() && AtImage(b) && ActiveOk(b, global) && (transparency ==> act != null)
      modifies this`pos, this`status, this`blockSize, this`pixels, this`frames, this`frameCount, this`lct
      modifies act, block, prefix, suffix, pixelStack, pixels
      ensures Valid() && (pixels == old(pixels) || fresh(pixels)) && (act != null ==> act[..] == old(act[..]))
      ensures ImageDone(b, global, f, DataEnd(b, old(pos)), old(frames), old(frameCount))
    {
      ghost var frames0, count0 := frames, frameCount;
      NoPicture(b, global);
      hide *;
      if act == null {
        // With a transparent colour in force the original fails here on the missing table.
        f := Frame([], [], 0);
        status := STATUS_FORMAT_ERROR;
        Refused(b, global, f, DataEnd(b, old(pos)), frames0, count0);
      } else {
        f := DrawWith(act, b, global);
        lct := null;
      }
    }

    lemma NoPicture(b: Block, global: seq<int>)
      requires ActiveOk(b, global)
      ensures b.Image? && (act == null ==> !Drawable(b, global))
    {
      hide Drawable, Untouched, Colours;
    }

    lemma Refused(b: Block, global: seq<int>, f: Frame, pos1: nat, frames0: seq<Frame>, count0: nat)
      requires b.Image? && !Drawable(b, global)
      requires status == STATUS_FORMAT_ERROR && frames == frames0 && frameCount == count0
      ensures ImageDone(b, global, f, pos1, frames0, count0)
    {
      hide Drawable;
    }

    /** The same with a table. */
    method DrawWith(colours: array<int>, ghost b: Block, ghost global: seq<int>) returns (ghost f: Frame)
      requires Valid() && !Error() && ScreenOk() && AtImage(b) && ActiveOk(b, global) && act == colours
      modifies this`pos, this`blockSize, this`pixels, this`frames, this`frameCount
      modifies colours, block, prefix, suffix, pixelStack, pixels
      ensures Valid() && (pixels == old(pixels) || fresh(pixels)) && colours[..] == old(colours[..])
      ensures ImageDone(b, global, f, DataEnd(b, old(pos)), old(frames), old(frameCount))
    {
      ghost var pos1, frames0, count0 := DataEnd(b, pos), frames, frameCount;
      PictureReady(b, global);
      hide *;
      f := DrawTransparent(colours, b, PictureOf(b, ControlState(), global, width, height));
      PictureDone(b, global, f, pos1, frames0, count0);
    }

    lemma PictureReady(b: Block, global: seq<int>)
      requires AtImage(b) && ActiveOk(b, global) && act != null
      ensures act.Length == 256 && Untouched(act) && b.Image? && Drawable(b, global)
      ensures BlockOk(b) && (HasTable(b.packed) || |global| == 256)
      ensures var p := PictureOf(b, ControlState(), global, width, height);
              Depicts(b, p) && WellSized(p) &&
              p.colours == if transparency then act[..][transIndex := 0] else act[..]
    {
      PictureParts(b, ControlState(), global, width, height);
      hide Drawable, Untouched, PictureOf, BlockOk, At, Encode, PixelsOf, Colours, WellSized;
    }

    lemma PictureDone(b: Block, global: seq<int>, f: Frame, pos1: nat, frames0: seq<Frame>, count0: nat)
      requires b.Image? && Drawable(b, global) && AddedFrame(f, pos1, frames0, count0)
      requires var p := PictureOf(b, ControlState(), global, width, height); ScreenDrawn(p, f.before, f.after, p.g.ih)
      ensures ImageDone(b, global, f, pos1, frames0, count0)
    {
      PictureParts(b, ControlState(), global, width, height);
      hide PictureOf, ScreenDrawn, Drawable, Shows;
      FrameShows(f, b, ControlState(), global, width, height);
    }

    /** Lines 754-787: draws the image with the transparent colour set to zero for the time being. */
    method DrawTransparent(colours: array<int>, ghost b: Block, ghost p: Picture) returns (ghost f: Frame)
      requires Valid() && !Error() && ScreenOk() && AtImage(b) && WellSized(p) && Depicts(b, p)
      requires colours.Length == 256 && Untouched(colours) && act == colours
      requires p.colours == if transparency then colours[..][transIndex := 0] else colours[..]
      modifies this`pos, this`blockSize, this`pixels, this`frames, this`frameCount
      modifies colours, block, prefix, suffix, pixelStack, pixels
      ensures Valid() && colours[..] == old(colours[..]) && (pixels == old(pixels) || fresh(pixels))
      ensures AddedFrame(f, DataEnd(b, old(pos)), old(frames), old(frameCount))
      ensures ScreenDrawn(p, f.before, f.after, p.g.ih)
    {
      hide At, BlockOk, Encode, PixelsOf, Valid, Untouched, AtImage, Depicts, AddedFrame, ScreenDrawn, WellSized;
      var save := 0;
      if transparency {
        save := colours[transIndex];
        colours[transIndex] := 0;
      }
      f := DecodeAndDraw(b, p);
      if transparency {
        colours[transIndex] := save;
      }
    }

    /** Lines 768-783: decodes and skips the image data and adds the frame that shows them. */
    method DecodeAndDraw(ghost b: Block, ghost p: Picture) returns (ghost f: Frame)
      requires Valid() && !Error() && ScreenOk() && AtImage(b) && WellSized(p) && Depicts(b, p)
      requires act != null && act[..] == p.colours && Untouched(act)
      modifies this`pos, this`blockSize, this`pixels, this`frames, this`frameCount
      modifies block, prefix, suffix, pixelStack, pixels
      ensures Valid() && act[..] == p.colours && (pixels == old(pixels) || fresh(pixels))
      ensures AddedFrame(f, DataEnd(b, old(pos)), old(frames), old(frameCount))
      ensures ScreenDrawn(p, f.before, f.after, p.g.ih)
    {
      ghost var pos1 := DataEnd(b, pos);
      DataReady(b, p);
      hide *;
      ReadWholeData();
      f := AddFrame(p, pos1);
    }

    /** Lines 773-783: draws the picture and adds its frame. */
    method AddFrame(ghost p: Picture, ghost pos1: nat) returns (ghost f: Frame)
      requires !Error() && pos == pos1 && ScreenOk() && WellSized(p)
      requires p.g == Geometry(ix, iy, iw, ih, interlace, width, height)
      requires act != null && act[..] == p.colours && pixels != null && p.indices <= pixels[..]
      modifies this`frames, this`frameCount
      ensures AddedFrame(f, pos1, old(frames), old(frameCount)) && ScreenDrawn(p, f.before, f.after, p.g.ih)
    {
      ghost var frames0, count0 := frames, frameCount;
      hide *;
      var before, dest := SetPixels(p);
      f := Frame(before, dest[..], delay);
      frameCount, frames := frameCount + 1, frames + [Frame(before, dest[..], delay)];
      FrameAdded(f, pos1, frames0, count0);
    }

    lemma DataReady(b: Block, p: Picture)
      requires AtImage(b) && Depicts(b, p)
      ensures pos < |stream| && 2 <= stream[pos] <= 11 && Framed(stream, pos + 1) && Area(iw, ih) < 0x8000_0000
      ensures var o, npix := ImageOutcome(stream, pos), Area(iw, ih);
              !MeetsNonLiteral(o, npix) && !RunsOut(o, npix) && p.indices == Padded(o.out, npix)
      ensures ChainEnd(stream, pos + 1) == DataEnd(b, pos)
      ensures WellSized(p) && p.g == Geometry(ix, iy, iw, ih, interlace, width, height)
    {
      DataBytes(stream, pos, b);
      hide At, Encode, BlockOk, PixelsOf, ImageOutcome, MeetsNonLiteral, RunsOut, Framed, ChainEnd, Padded, WellSized;
    }

    lemma FrameAdded(f: Frame, pos1: nat, frames0: seq<Frame>, count0: nat)
      requires !Error() && pos == pos1 && frameCount == count0 + 1 && frames == frames0 + [f] && f.delay == delay
      ensures AddedFrame(f, pos1, frames0, count0)
    {
    }

    /** One round of the NETSCAPE2.0 loop: a sub-block that begins with 1 sets the loop count; at
        the terminator the last sub-block is looked at once more. */
    method ReadLoopBlock(ghost data: seq<seq<byte>>)
      requires block.Length == 256 && Chunked(data) && At(stream, pos, Encode(data))
      modifies this`pos, this`blockSize, this`loopCount, block
      ensures data == [] ==>
                blockSize == 0 && pos == old(pos) + 1 == old(pos) + |Encode(data)| <= |stream| &&
                block[..] == old(block[..])
      ensures data != [] ==> blockSize > 0 && Chunked(data[1..]) && At(stream, pos, Encode(data[1..]))
      ensures data != [] ==> pos + |Encode(data[1..])| == old(pos) + |Encode(data)|
      ensures data != [] && |data[0]| >= 3 ==>
          block[0] == data[0][0] && block[1] == data[0][1] && block[2] == data[0][2]
      ensures loopCount == if block[0] == 1 then block[1] as int + 0x100 * (block[2] as int) else old(loopCount)
    {
      ChainStep(stream, pos, data);
      hide At, Encode, Framed;
      ghost var before := block[..];
      var n := ReadBlock();
      assert block[..] == Overwritten(before, 0, stream[pos - n..pos]);
      if block[0] == 1 {
        loopCount := block[1] as int + 0x100 * (block[2] as int);
      }
    }

    /** Reads a NETSCAPE2.0 extension: the last sub-block that begins with 1 sets the loop count. */
    method ReadNetscapeExt(ghost data: seq<seq<byte>>)
      requires block.Length == 256 && !Error() && Chunked(data) && At(stream, pos, Encode(data)) && block[0] != 1
      modifies this`pos, this`blockSize, this`loopCount, block
      ensures pos == old(pos) + |Encode(data)| <= |stream|
      ensures (forall b <- data :: |b| >= 3) ==> loopCount == LoopCount(data, old(loopCount))
    {
      hide At, Encode;
      ghost var rest, long := data, forall b <- data :: |b| >= 3;
      while true
        invariant Chunked(rest) && At(stream, pos, Encode(rest)) && pos + |Encode(rest)| == old(pos) + |Encode(data)|
        invariant long ==> forall b <- rest :: |b| >= 3
        invariant long ==> LoopCount(rest, loopCount) == LoopCount(data, old(loopCount))
        invariant long && block[0] == 1 ==> loopCount == block[1] as int + 0x100 * (block[2] as int)
        decreases |rest|
      {
        ReadLoopBlock(rest);
        if !(blockSize > 0 && !Error()) {
          break;
        }
        rest := rest[1..];
      }
    }

    /** Lines 649-662: an application extension; NETSCAPE2.0 sets the loop count, others are skipped. */
    method ReadApplicationExt(ghost b: Block)
      requires b.Application? && BlockOk(b) && block.Length == 256 && !Error()
      requires At(stream, pos, [11] + (b.id + Encode(b.data)))
      modifies this`pos, this`blockSize, this`loopCount, block
      ensures pos == old(pos) + 12 + |Encode(b.data)| <= |stream|
      ensures b.id == NETSCAPE ==> (forall x <- b.data :: |x| >= 3) ==> loopCount == LoopCount(b.data, old(loopCount))
      ensures b.id != NETSCAPE ==> loopCount == old(loopCount)
    {
      ApplicationParts(stream, pos, b);
      assert Chunked(b.data) && |b.id| == 11;
      hide At, Encode, Framed, BlockOk;
      ghost var before := block[..];
      var n := ReadBlock();
      assert block[..] == Overwritten(before, 0, stream[pos - n..pos]);
      assert block[..11] == b.id;
      var app := block[..11];
      if app == NETSCAPE {
        ReadNetscapeExt(b.data);
      } else {
        Skip();
      }
    }

    /** Lines 642-668: an extension block, its introducer read. */
    method ReadExtension(ghost b: Block)
      requires BlockOk(b) && Introducer(b) == 0x21 && block.Length == 256 && !Error() && At(stream, pos, Body(b))
      modifies this`pos, this`blockSize, this`loopCount, this`dispose, this`transparency, this`delay, this`transIndex,
          block
      ensures pos == old(pos) + |Body(b)| <= |stream|
      ensures ControlState() == ControlAfter(old(ControlState()), b)
      ensures !b.GraphicControl? ==> delay == old(delay) && transIndex == old(transIndex)
      ensures LongLoops(b) ==> loopCount == LoopAfter(b, old(loopCount))
    {
      ghost var rest := Body(b)[1..];
      assert Body(b) == [Body(b)[0]] + rest;
      AtByte(stream, pos, Body(b)[0], rest);
      var code := Read();
      if code == 0xf9 {
        assert b.GraphicControl?;
        ReadGraphicControlExt(b);
      } else if code == 0xff {
        assert b.Application?;
        ReadApplicationExt(b);
      } else {
        assert b.OtherExtension?;
        AtChain(stream, pos, b.data);
        Skip();
      }
    }

    /** What every round of the block loop keeps: the arrays, the control values and the count. */
    ghost predicate BlockLoop()
      reads this`gct, this`pixels, this`frames, this`frameCount
    {
      Valid() && frameCount == |frames|
    }

    /** Lines 641-680: all that is not an image. */
    method ReadOther(code: int, ghost rest: seq<Block>) returns (done: bool)
      requires !Error() && block.Length == 256
      requires rest != [] ==>
                 BlockOk(rest[0]) && !rest[0].Image? && code == Introducer(rest[0]) && At(stream, pos, Body(rest[0]))
      requires rest == [] ==> code !in {0x2c, 0x21, 0}
      modifies this`pos, this`status, this`blockSize, this`loopCount, this`dispose, this`transparency, this`delay,
          this`transIndex, block
      ensures rest == [] ==> pos == old(pos) && ControlState() == old(ControlState())
      ensures rest == [] ==> done == (code == 0x3b) && status == if done then STATUS_OK else STATUS_FORMAT_ERROR
      ensures rest != [] ==> !done && !Error() && pos == old(pos) + |Body(rest[0])|
      ensures rest != [] ==> ControlState() == ControlAfter(old(ControlState()), rest[0])
      ensures LoopActed(rest, old(loopCount), loopCount)
    {
      done := false;
      if code == 0x21 {
        ReadExtension(rest[0]);
      } else if code == 0x3b {
        done := true;
      } else if code == 0 {
      } else {
        status := STATUS_FORMAT_ERROR;
      }
    }

    /** Cursor, status, control and frames: what reading blocks changes. */
    ghost function Snapshot(): View
      reads this`pos, this`status, this`dispose, this`transparency, this`delay, this`transIndex, this`frames
    {
      View(pos, status, ControlState(), frames)
    }

    /** Lines 634-680: acts on one byte that introduces a block, the first of `rest`, or ends the
        stream. `more` is the frame of an image. */
    method ActOn(code: int, ghost rest: seq<Block>, ghost global: seq<int>) returns (done: bool, ghost more: seq<Frame>)
      requires ScreenOk() && BlockLoop() && !Error() && global == Global()
      requires rest != [] ==> code == Introducer(rest[0]) && Drawable(rest[0], global) && At(stream, pos, Body(rest[0]))
      requires rest == [] ==> code !in {0x2c, 0x21, 0}
      modifies this, block, gct, prefix, suffix, pixelStack, pixels
      ensures unchanged(`gct, `width, `height)
      ensures BlockLoop() && Global() == global && (pixels == old(pixels) || fresh(pixels))
      ensures CodeActed(code, rest, global, width, height, old(Snapshot()), Snapshot(), done, more)
      ensures LoopActed(rest, old(loopCount), loopCount)
    {
      if rest != [] {
        BodyParts(rest[0], global);
      }
      hide *;
      if code == 0x2c {
        more := ActOnImage(rest, global);
        done := false;
      } else {
        done := ActOnOther(code, rest, global);
        more := [];
      }
    }

    /** An image. */
    method ActOnImage(ghost rest: seq<Block>, ghost global: seq<int>) returns (ghost more: seq<Frame>)
      requires ScreenOk() && BlockLoop() && !Error() && global == Global()
      requires rest != [] && rest[0].Image? && Drawable(rest[0], global) && At(stream, pos, Body(rest[0]))
      modifies this, block, gct, prefix, suffix, pixelStack, pixels
      ensures unchanged(`gct, `width, `height)
      ensures BlockLoop() && Global() == global && (pixels == old(pixels) || fresh(pixels))
      ensures CodeActed(0x2c, rest, global, width, height, old(Snapshot()), Snapshot(), false, more)
      ensures LoopActed(rest, old(loopCount), loopCount)
    {
      ghost var b, v, count := rest[0], Snapshot(), frameCount;
      BodyParts(b, global);
      GlobalTable();
      LoopKept(rest, loopCount);
      BlockLoopIs();
      hide *;
      ghost var f := ReadImage(b);
      GlobalTable();
      ImageActed(rest, global, v, count, f);
      more := [f];
    }

    lemma BlockLoopIs()
      ensures BlockLoop() == (Valid() && frameCount == |frames|)
    {
    }

    lemma LoopKept(rest: seq<Block>, n: int)
      requires rest != [] && rest[0].Image?
      ensures LoopActed(rest, n, n)
    {
    }

    lemma ImageActed(rest: seq<Block>, global: seq<int>, v: View, count: nat, f: Frame)
      requires rest != [] && rest[0].Image? && Drawable(rest[0], global) && Valid() && count == |v.frames|
      requires ImageDone(rest[0], global, f, DataEnd(rest[0], v.pos + TableEnd(rest[0])), v.frames, count)
      requires v.control == ControlState()
      ensures BlockLoop() && CodeActed(0x2c, rest, global, width, height, v, Snapshot(), false, [f])
    {
      BodyParts(rest[0], global);
      hide Drawable, Shows, Body, Valid, BlockOk, Encode, Descriptor;
    }

    /** All that is not an image. */
    method ActOnOther(code: int, ghost rest: seq<Block>, ghost global: seq<int>) returns (done: bool)
      requires BlockLoop() && !Error() && global == Global()
      requires rest != [] ==>
                 !rest[0].Image? && code == Introducer(rest[0]) && Drawable(rest[0], global) &&
                 At(stream, pos, Body(rest[0]))
      requires rest == [] ==> code !in {0x2c, 0x21, 0}
      modifies this`pos, this`status, this`blockSize, this`loopCount, this`dispose, this`transparency, this`delay,
          this`transIndex, block
      ensures BlockLoop() && Global() == global
      ensures CodeActed(code, rest, global, width, height, old(Snapshot()), Snapshot(), done, [])
      ensures LoopActed(rest, old(loopCount), loopCount)
    {
      if rest != [] {
        BodyParts(rest[0], global);
      }
      ghost var v := Snapshot();
      BlockLength();
      GlobalTable();
      hide *;
      done := ReadOther(code, rest);
      GlobalTable();
      OtherActed(code, rest, global, v, done);
    }

    lemma BlockLength()
      requires BlockLoop()
      ensures block.Length == 256 && Valid()
    {
    }

    lemma OtherActed(code: int, rest: seq<Block>, global: seq<int>, v: View, done: bool)
      requires rest != [] ==> !rest[0].Image? && Drawable(rest[0], global) && BlockOk(rest[0])
      requires frames == v.frames
      requires rest == [] ==> pos == v.pos && ControlState() == v.control
      requires rest == [] ==> done == (code == 0x3b) && status == if done then STATUS_OK else STATUS_FORMAT_ERROR
      requires rest != [] ==> !done && !Error() && pos == v.pos + |Body(rest[0])|
      requires rest != [] ==> ControlState() == ControlAfter(v.control, rest[0])
      ensures CodeActed(code, rest, global, width, height, v, Snapshot(), done, [])
    {
      hide Drawable, Shows, Body, BlockOk, ControlAfter;
      assert v.frames + [] == v.frames;
    }

    lemma ErrorIs()
      ensures Error() == (status != STATUS_OK)
    {
    }

    lemma SnapshotRead()
      ensures Snapshot() == View(pos, status, ControlState(), frames)
    {
    }

    /** Lines 633-680: reads one byte and acts on it. */
    method ReadOneBlock(ghost rest: seq<Block>, ghost global: seq<int>) returns (done: bool, ghost more: seq<Frame>)
      requires ScreenOk()
      requires BlockLoop() && !Error() && global == Global() && pos <= |stream|
      requires if rest == [] then pos < |stream| ==> stream[pos] !in {0x2c, 0x21, 0}
               else
                 Drawable(rest[0], global) && pos < |stream| && stream[pos] == Introducer(rest[0]) &&
                 At(stream, pos + 1, Body(rest[0]))
      modifies this, block, gct, prefix, suffix, pixelStack, pixels
      ensures unchanged(`gct, `width, `height)
      ensures BlockLoop() && Global() == global
      ensures pixels == old(pixels) || fresh(pixels)
      ensures BlockActed(stream, rest, global, width, height, old(Snapshot()), Snapshot(), done, more)
      ensures LoopActed(rest, old(loopCount), loopCount)
    {
      ghost var v := Snapshot();
      SnapshotRead();
      hide *;
      var code := Read();
      ghost var v1 := Snapshot();
      SnapshotRead();
      done, more := ActOn(code, rest, global);
      CodeIsBlock(stream, rest, global, width, height, v, v1, code, Snapshot(), done, more);
    }

    /** One round of the block loop. */
    method ReadNext(ghost blocks: seq<Block>, ghost k0: nat, ghost end: nat, ghost c: Control, ghost global: seq<int>,
                    ghost n: int)
      returns (done: bool, ghost k: nat)
      requires ScreenOk()
      requires BlockLoop() && Global() == global && !Error()
      requires k0 <= |blocks| && InBlocks(stream, blocks, k0, end, c, global, width, height, Snapshot(), false)
      requires LoopAt(blocks, k0, n, loopCount)
      modifies this, block, gct, prefix, suffix, pixelStack, pixels
      ensures unchanged(`gct, `width, `height)
      ensures BlockLoop() && Global() == global && (k > k0 || done || Error())
      ensures k <= |blocks| && InBlocks(stream, blocks, k, end, c, global, width, height, Snapshot(), done)
      ensures LoopAt(blocks, k, n, loopCount) && (done || Error() ==> k == |blocks|)
      ensures pixels == old(pixels) || fresh(pixels)
    {
      ghost var v, rest := Snapshot(), blocks[k0..];
      RoundStart(stream, blocks, k0, rest, end, c, global, width, height, v);
      hide *;
      ghost var more, loop := [], loopCount;
      done, more := ReadOneBlock(rest, global);
      LoopStep(blocks, k0, n, loop, loopCount);
      RoundDone(stream, blocks, k0, rest, end, c, global, width, height, v, Snapshot(), done, more);
      k := if k0 < |blocks| then k0 + 1 else k0;
    }

    /** Reads blocks up to the trailer. On a stream of blocks of the grammar every image becomes one
        frame that shows it, the count of frames is kept, and the global colour table stays as it
        was read; the status is OK when the trailer follows, and a format error when another byte
        or nothing does. */
    method ReadContents(ghost blocks: seq<Block>)
      requires ScreenOk()
      requires BlockLoop() && !Error() && frames == []
      requires AllDrawable(blocks, Global()) && AllOk(blocks) && At(stream, pos, EncodeBlocks(blocks))
      requires var end := pos + |EncodeBlocks(blocks)|; end < |stream| ==> stream[end] !in {0x2c, 0x21, 0}
      modifies this, block, gct, prefix, suffix, pixelStack, pixels
      ensures BlockLoop()
      ensures var end := old(pos) + |EncodeBlocks(blocks)|;
              if end < |stream| && stream[end] == 0x3b then status == STATUS_OK && pos == end + 1
              else status == STATUS_FORMAT_ERROR
      ensures frameCount == |frames| == ImageCount(blocks) && Global() == old(Global())
      ensures FramesFor(frames, blocks, old(ControlState()), Global(), width, height)
      ensures unchanged(`gct, `width, `height) && LoopAt(blocks, |blocks|, old(loopCount), loopCount)
    {
      hide *;
      LoopStart(blocks, loopCount);
      ghost var end: nat, c, global, k: nat := pos + |EncodeBlocks(blocks)|, ControlState(), Global(), 0;
      SnapshotRead();
      ErrorIs();
      BlocksStart(stream, blocks, end, c, global, width, height, Snapshot());
      var done := false;
      while !(done || Error())
        invariant ScreenOk()
        invariant BlockLoop() && Global() == global && k <= |blocks| &&
            InBlocks(stream, blocks, k, end, c, global, width, height, Snapshot(), done)
        invariant pixels == old(pixels) || fresh(pixels)
        invariant unchanged(`gct, `width, `height)
        invariant LoopAt(blocks, k, old(loopCount), loopCount) && (done || Error() ==> k == |blocks|)
        decreases |blocks| - k, !(done || Error())
      {
        done, k := ReadNext(blocks, k, end, c, global, old(loopCount));
      }
      SnapshotRead();
      ErrorIs();
      BlockLoopIs();
      LoopOver(stream, blocks, k, end, c, global, width, height, Snapshot(), done);
    }

    constructor (stream: seq<byte>)
      ensures this.stream == stream && pos == 0 && BlockLoop() && fresh(block) && fresh(prefix) && fresh(suffix) &&
          fresh(pixelStack)
      ensures gct == null && pixels == null && frames == [] && status == STATUS_OK
      ensures ControlState() == Control(0, false, 0, 0) && loopCount == 1
    {
      this.stream := stream;
      pos, status, blockSize := 0, STATUS_OK, 0;
      width, height, bgIndex, pixelAspect := 0, 0, 0, 0;
      gct, lct, act, pixels := null, null, null, null;
      ix, iy, iw, ih, interlace := 0, 0, 0, 0, false;
      dispose, transparency, delay, transIndex := 0, false, 0, 0;
      loopCount, frames, frameCount := 1, [], 0;
      block := new byte[256](_ => 0);
      prefix := new entry[MAX_STACK_SIZE](_ => 0);
      suffix := new byte[MAX_STACK_SIZE](_ => 0);
      pixelStack := new byte[MAX_STACK_SIZE + 1](_ => 0);
    }

    /** Lines 707-716: the file must begin with the three letters of the signature. */
    method ReadSignature()
      requires pos == 0 && !Error()
      modifies this`pos, this`status
      ensures pos == if |stream| < 6 then |stream| else 6
      ensures Error() <==> !([0x47, 0x49, 0x46] <= stream)
      ensures Error() ==> status == STATUS_FORMAT_ERROR
    {
      var id: seq<int> := [];
      for i := 0 to 6
        invariant |id| == i && pos == (if |stream| < i then |stream| else i) && !Error()
        invariant forall k | 0 <= k < i :: id[k] == if k < |stream| then stream[k] as int else -1
      {
        var c := Read();
        id := id + [c];
      }
      if !(id[0] == 0x47 && id[1] == 0x49 && id[2] == 0x46) {
        status := STATUS_FORMAT_ERROR;
      }
    }

    /** Lines 796-812: the logical screen descriptor. */
    method ReadLSD(ghost gif: Gif) returns (packed: int)
      requires GifOk(gif) && At(stream, pos, ScreenDescriptor(gif)) && pos == 6
      modifies this`pos, this`width, this`height, this`bgIndex, this`pixelAspect
      ensures pos == 13 <= |stream| && width == gif.width && height == gif.height && packed == gif.packed == stream[10]
      ensures width == stream[6] as int + 0x100 * (stream[7] as int)
      ensures height == stream[8] as int + 0x100 * (stream[9] as int)
    {
      ScreenDescriptorBytes(stream, gif);
      hide *;
      width := ReadShort();
      height := ReadShort();
      packed := Read();
      bgIndex := Read();
      pixelAspect := Read();
    }

    /** Lines 719-723: the global colour table. */
    method ReadGlobalTable(packed: byte, ghost gif: Gif)
      requires GifOk(gif) && packed == gif.packed && BlockLoop() && gct == null && !Error()
      requires pos + |gif.table| <= |stream| && stream[pos..pos + |gif.table|] == gif.table
      modifies this`pos, this`status, this`gct
      ensures BlockLoop() && pos == old(pos) + |gif.table| && !Error() && Global() == GlobalOf(gif)
      ensures gct != null ==> fresh(gct)
    {
      TableSizes(packed);
      PackedBits(packed);
      assert |gif.table| == if HasTable(packed) then 3 * TableSize(packed) else 0;
      hide GifOk, Colours, TableSize, Shl, BitAnd, HasTable, Shr;
      if BitAnd(packed, 0x80) != 0 && !Error() {
        gct := ReadColorTable(Shl(2, BitAnd(packed, 7)));
      }
    }

    /** Lines 707-724: the header, the screen descriptor and the global colour table. */
    method ReadHeader(ghost gif: Gif)
      requires GifOk(gif) && At(stream, 0, EncodeGif(gif)) && pos == 0 && BlockLoop() && !Error() && gct == null
      modifies this`pos, this`status, this`width, this`height, this`bgIndex, this`pixelAspect, this`gct
      ensures BlockLoop() && !Error() && pos == 13 + |gif.table| && width == gif.width && height == gif.height
      ensures gct != null ==> fresh(gct)
      ensures Global() == GlobalOf(gif)
    {
      GifParts(stream, gif);
      GifLength(gif);
      hide *;
      ReadSignature();
      if Error() {
        return;
      }
      var packed := ReadLSD(gif);
      ReadGlobalTable(packed, gif);
    }

    /** The header is read: the state before the blocks of the file. */
    ghost predicate AtBlocks(gif: Gif)
      requires GifOk(gif)
      reads this, gct
    {
      BlockLoop() && !Error() && ScreenOk() && pos == 13 + |gif.table| && frames == []
      && width == gif.width && height == gif.height && Global() == GlobalOf(gif)
    }

    /** All of the file is read. */
    ghost predicate AtEnd(gif: Gif, c: Control, n: int)
      requires GifOk(gif)
      reads this, gct
    {
      && status == STATUS_OK && pos == |EncodeGif(gif)| && Global() == GlobalOf(gif)
      && frameCount == |frames| == ImageCount(gif.blocks) && width == gif.width && height == gif.height
      && FramesFor(frames, gif.blocks, c, GlobalOf(gif), width, height)
      && GifStandard.AsSpecified(frames, gif.blocks, c, GlobalOf(gif), width, height)
      && LoopAt(gif.blocks, |gif.blocks|, n, loopCount)
    }

    method ReadHeaderOf(ghost gif: Gif)
      requires GifOk(gif) && At(stream, 0, EncodeGif(gif)) && pos == 0 && BlockLoop() && !Error() && gct == null &&
          frames == []
      modifies this`pos, this`status, this`width, this`height, this`bgIndex, this`pixelAspect, this`gct
      ensures AtBlocks(gif) && !Error() && (gct != null ==> fresh(gct))
    {
      GifScreen(gif);
      hide GifOk, At, EncodeGif, BlockLoop, Global, ScreenFits;
      ReadHeader(gif);
    }

    lemma BlocksReady(gif: Gif)
      requires GifOk(gif) && AtBlocks(gif)
      ensures ScreenOk() && BlockLoop() && !Error() && frames == [] && Global() == GlobalOf(gif)
      ensures pos == 13 + |gif.table| && width == gif.width && height == gif.height
    {
      hide GifOk, BlockLoop, Global, ScreenFits, GlobalOf;
    }

    lemma EndReached(gif: Gif, c: Control, n: int)
      requires GifOk(gif) && status == STATUS_OK && pos == |EncodeGif(gif)| && Global() == GlobalOf(gif)
      requires frameCount == |frames| == ImageCount(gif.blocks) && width == gif.width && height == gif.height
      requires FramesFor(frames, gif.blocks, c, GlobalOf(gif), width, height)
      requires LoopAt(gif.blocks, |gif.blocks|, n, loopCount)
      ensures AtEnd(gif, c, n)
    {
      hide GifStandard.AsSpecified, FramesFor, LoopAt;
      GifStandard.DecodedAsSpecified(frames, gif.blocks, c, GlobalOf(gif), width, height);
    }

    method ReadBlocksOf(ghost gif: Gif)
      requires GifOk(gif) && At(stream, 0, EncodeGif(gif)) && AtBlocks(gif)
      modifies this, block, gct, prefix, suffix, pixelStack, pixels
      ensures AtEnd(gif, old(ControlState()), old(loopCount))
    {
      hide *;
      BlocksReady(gif);
      BlocksAt(stream, gif);
      ReadContents(gif.blocks);
      EndReached(gif, old(ControlState()), old(loopCount));
    }

    /** Decodes a file. For every file laid out by the grammar the status is OK, the cursor ends just
        past the trailer, and there is one frame per image, showing what the decoder's own rules
        make of it: `FramesFor`. Where the blocks meet the conditions of `AsSpecified`, the frames
        are those that the specification prescribes. */
    method ReadGif(ghost gif: Gif)
      requires GifOk(gif) && At(stream, 0, EncodeGif(gif)) && pos == 0 && frames == [] && BlockLoop() && !Error() &&
          gct == null
      modifies this, block, prefix, suffix, pixelStack, pixels
      ensures AtEnd(gif, old(ControlState()), old(loopCount))
    {
      hide *;
      ReadHeaderOf(gif);
      if !Error() {
        ReadBlocksOf(gif);
      }
    }
  }
}
