/** The effect of each kind of code on the decoder's arrays and counters, against the reference
    decoder's table. */
module LzwSteps {
  import opened Bits
  import opened LzwReference
  import opened LzwArrays

  /** The counters after a clear code. */
  function Reset(m: nat, r: Registers): Registers {
    Registers(Clear(m) + 2, m + 1, Pow2(m + 1) - 1, NULL_CODE, r.first)
  }

  lemma ClearStep(m: nat, r: Registers, prefix: seq<entry>, suffix: seq<byte>, t: Table, stale: byte)
    requires Represents(m, r, prefix, suffix, t, stale)
    ensures Represents(m, Reset(m, r), prefix, suffix, Cleared(t), stale)
  {
    CountersStart(m);
    if t.extra != [] {
      assert EntryOk(m, prefix, suffix, t.extra, 0);
    }
  }

  /** The first code: a literal, or the first free code, for which the decoder shows whatever its
      cell of the suffix array holds. */
  lemma FirstStep(m: nat, r: Registers, prefix: seq<entry>, suffix: seq<byte>, t: Table, stale: byte, code: entry)
    requires Represents(m, r, prefix, suffix, t, stale) && r.oldCode == NULL_CODE
    requires code <= r.available && code != Clear(m) && code != Clear(m) + 1
    ensures code < Clear(m) ==>
              Represents(m, r.(oldCode := code, first := code), prefix, suffix, t.(prev := [code % 256]), stale)
    ensures suffix[code] == if code < Clear(m) then code % 256 else CellValue(t.cell, stale)
  {
  }

  lemma DataStep(m: nat, r: Registers, prefix: seq<entry>, suffix: seq<byte>, t: Table, stale: byte, code: entry)
    requires Represents(m, r, prefix, suffix, t, stale) && t.prev != []
    requires code <= Next(m, t) < MAX_CODES && code != Clear(m) && code != Clear(m) + 1
    ensures var s := StringOf(m, t, code);
            Represents(m, Grown(r).(oldCode := code, first := s[0]), prefix[r.available := r.oldCode],
                       suffix[r.available := s[0]], Learned(m, t, s), stale)
  {
    var s := StringOf(m, t, code);
    RepresentsParts(m, r, prefix, suffix, t, stale);
    AddEntry(m, prefix, suffix, t.extra, r.oldCode, s[0]);
    GrownOk(m, r);
    LearnedCode(m, t, code);
    hide TableOk, CountersOk, StringOf, Lookup, IsCode, Pow2, BitAnd, WellFormed;
    var t' := Learned(m, t, s);
    assert t'.extra == t.extra + [t.prev + [s[0]]] && t'.prev == s && t'.extra != [];
  }

  lemma RepresentsParts(m: nat, r: Registers, prefix: seq<entry>, suffix: seq<byte>, t: Table, stale: byte)
    requires Represents(m, r, prefix, suffix, t, stale) && t.prev != []
    ensures TableOk(m, prefix, suffix, t.extra) && CountersOk(m, r) && r.available == Next(m, t)
    ensures r.oldCode != NULL_CODE && IsCode(m, t.extra, r.oldCode) && t.prev == Lookup(m, t.extra, r.oldCode)
  {
    hide TableOk, CountersOk, WellFormed, Pow2, IsCode, Lookup;
  }

  /** After a data code the table gives it the string that it stood for. */
  lemma LearnedCode(m: nat, t: Table, code: nat)
    requires WellFormed(m, t) && t.prev != [] && Next(m, t) < MAX_CODES
    requires code <= Next(m, t) && code != Clear(m) && code != Clear(m) + 1
    ensures var s := StringOf(m, t, code);
            var t' := Learned(m, t, s);
            IsCode(m, t'.extra, code) && Lookup(m, t'.extra, code) == s && Next(m, t') == Next(m, t) + 1
  {
    hide Pow2;
  }

  /** The string of a code as the decoder assembles it: for the first free code it pushes the
      first byte of the previous string and walks from the previous code. */
  lemma StringParts(m: nat, r: Registers, prefix: seq<entry>, suffix: seq<byte>, t: Table, stale: byte, code: nat)
    requires Represents(m, r, prefix, suffix, t, stale) && t.prev != []
    requires code <= Next(m, t) && code != Clear(m) && code != Clear(m) + 1
    ensures var s := StringOf(m, t, code);
            |s| <= MAX_STACK_SIZE &&
            if code == r.available then r.oldCode >= 0 && s == Lookup(m, t.extra, r.oldCode) + [r.first % 256]
            else IsCode(m, t.extra, code) && s == Lookup(m, t.extra, code)
  {
    WalkStep(m, prefix, suffix, t.extra, if code == r.available then r.oldCode else code);
    Pow2Range(m);
  }
}
