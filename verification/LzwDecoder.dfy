/** The table half of the image decoder, on the arrays of the original: what one code does to the
    string table and to the pixel stack. */
module LzwDecoder {
  import opened Bits
  import opened LzwReference
  import opened LzwArrays
  import LzwSteps
  import opened LzwMachine

  /** The rest of a walk, `here`, and the bytes already pushed make up the whole walk. */
  predicate WalkGoes(whole: Walked, here: Walked, pushed: seq<byte>) {
    match here
    case Overrun => whole == Overrun
    case Bytes(bytes, end) => whole == Bytes(bytes + pushed, end)
  }

  lemma WalkGo(m: nat, prefix: seq<entry>, suffix: seq<byte>, code: entry, room: nat, whole: Walked, pushed: seq<byte>)
    requires |prefix| == |suffix| == MAX_CODES && code > Clear(m)
    requires WalkGoes(whole, Walk(m, prefix, suffix, code, room), pushed)
    ensures room == 0 ==> whole == Overrun
    ensures room > 0 ==> WalkGoes(whole, Walk(m, prefix, suffix, prefix[code], room - 1), [suffix[code]] + pushed)
  {
    if room > 0 {
      var here := Walk(m, prefix, suffix, prefix[code], room - 1);
      if here.Bytes? {
        assert here.bytes + [suffix[code]] + pushed == here.bytes + ([suffix[code]] + pushed);
      }
    }
  }

  lemma WalkStart(whole: Walked)
    ensures WalkGoes(whole, whole, [])
  {
    assert whole.Bytes? ==> whole.bytes + [] == whole.bytes;
  }

  lemma WalkOver(m: nat, prefix: seq<entry>, suffix: seq<byte>, code: entry, room: nat, whole: Walked,
                 pushed: seq<byte>)
    requires |prefix| == |suffix| == MAX_CODES && code <= Clear(m)
    requires WalkGoes(whole, Walk(m, prefix, suffix, code, room), pushed)
    ensures whole == Bytes(pushed, code)
  {
    assert [] + pushed == pushed;
  }

  /** What the stack pops: `bytes`, then what was on it. */
  lemma PushPopped(stack: seq<byte>, b: byte, bytes: seq<byte>, before: seq<byte>)
    requires Popped(stack) == bytes + before
    ensures Popped(stack + [b]) == ([b] + bytes) + before
  {
    PoppedPush(stack, b);
    assert [b] + (bytes + before) == ([b] + bytes) + before;
  }

  /** The walk has left its bytes on the stack, or run out of room. */
  predicate Walks(w: Walked, threw: bool, code: int, popped: seq<byte>, before: seq<byte>) {
    match w
    case Overrun => threw
    case Bytes(bytes, end) => !threw && code == end && popped == bytes + before
  }

  /** Pushes the string of `code0` but for its first byte, last byte first, and returns the code
      of that first byte. */
  method PushString(m: nat, prefix: array<entry>, suffix: array<byte>, stack: array<byte>, top0: nat, code0: entry)
    returns (threw: bool, top: nat, code: entry)
    requires prefix.Length == suffix.Length == MAX_CODES && top0 <= stack.Length
    requires stack != suffix && prefix as object != stack
    modifies stack
    ensures top0 <= top <= stack.Length
    ensures Walks(Walk(m, prefix[..], suffix[..], code0, stack.Length - top0), threw, code,
                  Popped(stack[..top]), Popped(old(stack[..top0])))
  {
    threw, top, code := false, top0, code0;
    ghost var P, S, before, pushed := prefix[..], suffix[..], Popped(stack[..top0]), [];
    ghost var whole := Walk(m, P, S, code0, stack.Length - top0);
    WalkStart(whole);
    assert [] + before == before;
    hide Walk, WalkGoes, Popped;
    while code > Clear(m)
      invariant top0 <= top <= stack.Length && prefix[..] == P && suffix[..] == S
      invariant WalkGoes(whole, Walk(m, P, S, code, stack.Length - top), pushed)
      invariant Popped(stack[..top]) == pushed + before
      decreases stack.Length - top
    {
      WalkGo(m, P, S, code, stack.Length - top, whole, pushed);
      if top == stack.Length {
        return true, top, code;
      }
      ghost var stacked := stack[..top];
      PushPopped(stacked, S[code], pushed, before);
      stack[top] := suffix[code];
      top := top + 1;
      assert stack[..top] == stacked + [S[code]];
      pushed := [S[code]] + pushed;
      code := prefix[code];
    }
    WalkOver(m, P, S, code, stack.Length - top, whole, pushed);
  }

  /** What a code that follows another leaves on the stack. */
  predicate Pushes(w: Walked, threw: bool, first: byte, popped: seq<byte>, suffix: seq<byte>)
    requires |suffix| == MAX_CODES
  {
    match w
    case Overrun => threw
    case Bytes(bytes, end) => !threw && first == suffix[end] && popped == bytes
  }

  /** Pushes the string of a code that follows another, but for its first byte. */
  method PushCode(m: nat, r: Registers, code: entry, prefix: array<entry>, suffix: array<byte>, stack: array<byte>)
    returns (threw: bool, top: nat, first: byte)
    requires prefix.Length == suffix.Length == MAX_CODES && stack.Length == MAX_STACK_SIZE + 1
    requires stack != suffix && prefix as object != stack
    requires Sound(m, Machine(r, prefix[..], suffix[..])) && r.oldCode != NULL_CODE
    modifies stack
    ensures top <= stack.Length
    ensures Pushes(Pushed(m, Machine(r, prefix[..], suffix[..]), code), threw, first, Popped(stack[..top]), suffix[..])
  {
    SoundRange(m, Machine(r, prefix[..], suffix[..]));
    hide Walk, Sound;
    top := 0;
    var walk := code;
    if code == r.available {
      stack[0] := r.first % 256;
      top := 1;
      walk := r.oldCode;
      assert stack[..top] == [r.first % 256];
    }
    OneOrNone(stack[..top]);
    threw, top, walk := PushString(m, prefix, suffix, stack, top, walk);
    first := suffix[walk];
  }

  lemma OneOrNone(stack: seq<byte>)
    requires |stack| <= 1
    ensures Popped(stack) == stack
    ensures forall s: seq<byte> :: s + [] == s
  {
  }

  lemma SoundRange(m: nat, a: Machine)
    requires Sound(m, a)
    ensures NULL_CODE <= a.r.oldCode < MAX_CODES == 4096 && |a.prefix| == |a.suffix| == MAX_CODES
    ensures 2 <= m <= 11 && a.r.available <= MAX_CODES
  {
  }

  /** Adds the previous string with the first byte of the present one to the table. */
  method AddString(r0: Registers, code: entry, first: byte, prefix: array<entry>, suffix: array<byte>)
    returns (r: Registers)
    requires prefix.Length == suffix.Length == MAX_CODES && prefix as object != suffix
    requires 0 <= r0.oldCode < MAX_CODES && r0.available < MAX_CODES
    modifies prefix, suffix
    ensures Machine(r, prefix[..], suffix[..]) == Added(old(Machine(r0, prefix[..], suffix[..])), code, first)
  {
    prefix[r0.available] := r0.oldCode;
    suffix[r0.available] := first;
    r := Grown(r0).(oldCode := code, first := first);
  }

  /** The arrays, counters and stack are those that the machine has after a code. */
  predicate Moved(s: Stepped, sig: Signal, popped: seq<byte>, a: Machine) {
    sig == s.sig && (sig == Go ==> popped == s.popped && a == s.a)
  }

  /** What a data code comes to, from what it leaves on the stack. */
  lemma DataMoves(m: nat, a: Machine, code: entry, threw: bool, first: byte, stacked: seq<byte>)
    requires Sound(m, a) && a.r.oldCode != NULL_CODE && |stacked| <= MAX_STACK_SIZE + 1 && |a.suffix| == MAX_CODES
    requires Pushes(Pushed(m, a, code), threw, first, Popped(stacked), a.suffix)
    ensures var s := DataCode(m, a, code);
            if threw then s.sig == Threw
            else if a.r.available >= MAX_STACK_SIZE then s.sig == Stopped
            else if |stacked| == MAX_STACK_SIZE + 1 then s.sig == Threw
            else s == Stepped(Go, Popped(stacked + [first]), Added(a, code, first))
  {
    PoppedLength(stacked);
    PoppedPush(stacked, first);
    hide Pushed, Popped, Added;
  }

  method InterpretData(m: nat, r0: Registers, code: entry, prefix: array<entry>, suffix: array<byte>,
                       stack: array<byte>)
    returns (sig: Signal, r: Registers, top: nat)
    requires prefix.Length == suffix.Length == MAX_CODES && stack.Length == MAX_STACK_SIZE + 1
    requires stack != suffix && prefix as object != stack && prefix as object != suffix
    requires Sound(m, Machine(r0, prefix[..], suffix[..])) && r0.oldCode != NULL_CODE
    modifies prefix, suffix, stack
    ensures top <= stack.Length
    ensures Moved(DataCode(m, old(Machine(r0, prefix[..], suffix[..])), code), sig,
                  Popped(stack[..top]), Machine(r, prefix[..], suffix[..]))
  {
    SoundRange(m, Machine(r0, prefix[..], suffix[..]));
    hide Sound, Pushed, Pushes, Added, Popped, DataCode;
    ghost var a := Machine(r0, prefix[..], suffix[..]);
    var threw, first;
    r := r0;
    threw, top, first := PushCode(m, r0, code, prefix, suffix, stack);
    DataMoves(m, a, code, threw, first, stack[..top]);
    if threw {
      return Threw, r, top;
    }
    if r0.available >= MAX_STACK_SIZE {
      return Stopped, r, top;
    }
    if top == stack.Length {
      return Threw, r, top;
    }
    ghost var stacked := stack[..top];
    stack[top] := first;
    r := AddString(r0, code, first, prefix, suffix);
    assert stack[..top + 1] == stacked + [first];
    return Go, r, top + 1;
  }

  /** Acts on one code: updates the counters and the table and leaves the pixels of its string on
      the stack, unless decoding stops at it. */
  method Interpret(m: nat, r0: Registers, code: entry, prefix: array<entry>, suffix: array<byte>, stack: array<byte>)
    returns (sig: Signal, r: Registers, top: nat)
    requires prefix.Length == suffix.Length == MAX_CODES && stack.Length == MAX_STACK_SIZE + 1
    requires stack != suffix && prefix as object != stack && prefix as object != suffix
    requires Sound(m, Machine(r0, prefix[..], suffix[..]))
    modifies prefix, suffix, stack
    ensures top <= stack.Length
    ensures Moved(Step(m, old(Machine(r0, prefix[..], suffix[..])), code), sig,
                  Popped(stack[..top]), Machine(r, prefix[..], suffix[..]))
  {
    hide Sound, DataCode;
    r, top := r0, 0;
    OneOrNone(stack[..0]);
    var clear := Shl(1, m);
    ShlOne(m);
    if code > r.available || code == clear + 1 {
      return Stopped, r, top;
    }
    if code == clear {
      return Go, LzwSteps.Reset(m, r), 0;
    }
    if r.oldCode == NULL_CODE {
      stack[0] := suffix[code];
      assert stack[..1] == [suffix[code]];
      OneOrNone(stack[..1]);
      return Go, r.(oldCode := code, first := code), 1;
    }
    sig, r, top := InterpretData(m, r0, code, prefix, suffix, stack);
  }
}
