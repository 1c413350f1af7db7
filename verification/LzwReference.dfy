/** The variable-width LZW decoder of section 22 and Appendix F of the GIF89a specification, as
    a decoder over a dictionary of strings. Codes are slices of the little-endian bit string. */
module LzwReference {
  import opened Bits

  const MAX_CODES := 4096

  /** `extra` holds the strings of the codes from clear + 2 on, `prev` the string of the previous
      code ([] at the start and after a clear code). `cell` is the last byte of the string most
      recently given to code clear + 2, if there was one. */
  datatype Table = Table(extra: seq<seq<byte>>, prev: seq<byte>, cell: Cell)

  datatype Cell = Unwritten | Written(value: byte)

  const EMPTY_TABLE := Table([], [], Unwritten)

  /** Why decoding ends. `NotLiteral`: the first code, at the start or after a clear code, is the
      first free code, which stands for no string. */
  datatype Stop = OutOfData | EndCode | UnknownCode | TableFull | NotLiteral(cell: Cell)

  datatype Outcome = Outcome(out: seq<byte>, stop: Stop)

  function Clear(m: nat): nat { Pow2(m) }

  function Next(m: nat, t: Table): nat { Clear(m) + 2 + |t.extra| }

  /** Width of the next code: enough bits for the first free code, 12 at most. */
  function Width(next: nat): nat {
    if next >= MAX_CODES then 12 else BitLength(next)
  }

  predicate WellFormed(m: nat, t: Table) {
    && Next(m, t) <= MAX_CODES
    && (forall s <- t.extra :: s != [])
    && (t.prev == [] ==> t.extra == [])
  }

  /** A code that stands for a string. */
  predicate IsCode(m: nat, extra: seq<seq<byte>>, code: int) {
    0 <= code < Clear(m) || Clear(m) + 2 <= code < Clear(m) + 2 + |extra|
  }

  function Lookup(m: nat, extra: seq<seq<byte>>, code: nat): seq<byte>
    requires IsCode(m, extra, code)
  {
    if code < Clear(m) then [code % 256] else extra[code - Clear(m) - 2]
  }

  function Cleared(t: Table): Table {
    Table([], [], if t.extra != [] && t.extra[0] != [] then Written(t.extra[0][|t.extra[0]| - 1]) else t.cell)
  }

  /** The string of a code that follows another code; the first free code stands for the
      previous string and its own first byte. */
  function StringOf(m: nat, t: Table, code: nat): (s: seq<byte>)
    requires WellFormed(m, t) && t.prev != []
    requires code <= Next(m, t) && code != Clear(m) && code != Clear(m) + 1
    ensures s != []
  {
    assert Clear(m) < code < Next(m, t) ==> t.extra[code - Clear(m) - 2] in t.extra;
    if code == Next(m, t) then t.prev + [t.prev[0]] else Lookup(m, t.extra, code)
  }

  /** The table after a code that follows another code. A full table stays as it is. */
  function Learned(m: nat, t: Table, s: seq<byte>): (t': Table)
    requires WellFormed(m, t) && t.prev != [] && s != []
    ensures WellFormed(m, t')
  {
    if Next(m, t) == MAX_CODES then t.(prev := s)
    else t.(extra := t.extra + [t.prev + [s[0]]], prev := s)
  }

  /** The table that decoding goes on with after a code. */
  function After(m: nat, t: Table, code: nat): Table
    requires WellFormed(m, t) && code <= Next(m, t) && code != Clear(m) + 1
  {
    if code == Clear(m) then Cleared(t)
    else if t.prev == [] then t.(prev := [code % 256])
    else Learned(m, t, StringOf(m, t, code))
  }

  /** The string of a code that decoding goes on after. */
  function Said(m: nat, t: Table, code: nat): seq<byte>
    requires WellFormed(m, t) && code <= Next(m, t) && code != Clear(m) + 1
  {
    if code == Clear(m) then [] else if t.prev == [] then [code % 256] else StringOf(m, t, code)
  }

  function Then(out: seq<byte>, rest: Outcome): Outcome {
    Outcome(out + rest.out, rest.stop)
  }

  /** Decodes `data` from bit `p` on. With `deferred` the decoder goes on with a full table, as
      the specification asks; without it, a data code that meets a full table ends decoding. */
  function Decode(m: nat, data: seq<byte>, p: nat, t: Table, deferred: bool): Outcome
    requires 2 <= m <= 11 && WellFormed(m, t)
    decreases 8 * |data| - p, 0
  {
    var w := Width(Next(m, t));
    if p + w > 8 * |data| then Outcome([], OutOfData)
    else
      WidthRange(m, t);
      Interpret(m, data, p + w, t, Slice(data, p, w), deferred)
  }

  /** Acts on the code just read and decodes the rest of `data`, from bit `p` on. */
  function Interpret(m: nat, data: seq<byte>, p: nat, t: Table, code: nat, deferred: bool): Outcome
    requires 2 <= m <= 11 && WellFormed(m, t) && p <= 8 * |data|
    decreases 8 * |data| - p, 1
  {
    if code > Next(m, t) then Outcome([], UnknownCode)
    else if code == Clear(m) + 1 then Outcome([], EndCode)
    else if code == Clear(m) then Decode(m, data, p, Cleared(t), deferred)
    else if t.prev == [] && code > Clear(m) then Outcome([], NotLiteral(t.cell))
    else if t.prev == [] then
      var s := [code % 256];
      Then(s, Decode(m, data, p, t.(prev := s), deferred))
    else if Next(m, t) == MAX_CODES && !deferred then Outcome([], TableFull)
    else
      var s := StringOf(m, t, code);
      Then(s, Decode(m, data, p, Learned(m, t, s), deferred))
  }

  lemma WidthRange(m: nat, t: Table)
    requires 2 <= m <= 11 && WellFormed(m, t)
    ensures m + 1 <= Width(Next(m, t)) <= 12
  {
    Pow2Values();
    if Next(m, t) < MAX_CODES {
      BitLengthWithin(Next(m, t), m, 12);
    }
  }
}
