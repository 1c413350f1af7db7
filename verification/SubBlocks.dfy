/** Data sub-blocks (sections 15 and 16 of the GIF89a specification): a size byte, that many data
    bytes, and so on, up to a block terminator of size zero. */
module SubBlocks {
  import opened Bits

  /** From `pos` on, every announced sub-block is there in full, up to a terminator or to the
      end of the stream. */
  predicate Framed(stream: seq<byte>, pos: nat)
    decreases |stream| - pos
  {
    pos <= |stream| &&
    (pos < |stream| && stream[pos] > 0 ==>
      pos + 1 + stream[pos] <= |stream| && Framed(stream, pos + 1 + stream[pos]))
  }

  /** All data bytes of the chain of sub-blocks at `pos`, in order. */
  function Payload(stream: seq<byte>, pos: nat): seq<byte>
    requires Framed(stream, pos)
    decreases |stream| - pos
  {
    if pos == |stream| || stream[pos] == 0 then []
    else
      var next := pos + 1 + stream[pos];
      stream[pos + 1..next] + Payload(stream, next)
  }

  /** The position just past the terminator of the chain at `pos` (or the end of the stream). */
  function ChainEnd(stream: seq<byte>, pos: nat): (end: nat)
    requires Framed(stream, pos)
    ensures pos <= end <= |stream|
    decreases |stream| - pos
  {
    if pos == |stream| then pos
    else if stream[pos] == 0 then pos + 1
    else ChainEnd(stream, pos + 1 + stream[pos])
  }

  /** The bytes of a chain whose sub-blocks hold `blocks`. */
  function Encode(blocks: seq<seq<byte>>): seq<byte>
    requires forall b <- blocks :: 0 < |b| < 256
  {
    if blocks == [] then [0] else [|blocks[0]|] + blocks[0] + Encode(blocks[1..])
  }

  function Flatten(blocks: seq<seq<byte>>): seq<byte> {
    if blocks == [] then [] else blocks[0] + Flatten(blocks[1..])
  }

  /** The stream holds `bytes` at `pos`. */
  predicate At(stream: seq<byte>, pos: nat, bytes: seq<byte>) {
    pos + |bytes| <= |stream| && stream[pos..pos + |bytes|] == bytes
  }

  lemma AtSplit(stream: seq<byte>, pos: nat, a: seq<byte>, b: seq<byte>)
    requires At(stream, pos, a + b)
    ensures At(stream, pos, a) && At(stream, pos + |a|, b)
  {
    var s := stream[pos..pos + |a + b|];
    assert s[..|a|] == a && s[|a|..] == b;
  }

  lemma AtByte(stream: seq<byte>, pos: nat, a: byte, b: seq<byte>)
    requires At(stream, pos, [a] + b)
    ensures pos < |stream| && stream[pos] == a && At(stream, pos + 1, b)
  {
    AtSplit(stream, pos, [a], b);
  }

  /** Reading undoes writing: an encoded chain is framed, holds the data it was made from, and
      ends where the encoding ends, whatever precedes and follows it. */
  lemma {:induction false} ReadsBack(stream: seq<byte>, pos: nat, blocks: seq<seq<byte>>)
    requires forall b <- blocks :: 0 < |b| < 256
    requires At(stream, pos, Encode(blocks))
    ensures Framed(stream, pos) && Payload(stream, pos) == Flatten(blocks)
    ensures ChainEnd(stream, pos) == pos + |Encode(blocks)|
    decreases |blocks|
  {
    if blocks == [] {
      AtByte(stream, pos, 0, []);
    } else {
      var b := blocks[0];
      var rest := Encode(blocks[1..]);
      assert Encode(blocks) == [|b|] + (b + rest);
      AtByte(stream, pos, |b|, b + rest);
      AtSplit(stream, pos + 1, b, rest);
      ReadsBack(stream, pos + 1 + |b|, blocks[1..]);
    }
  }

  /** What one `Stream.Read(buffer, offset, len)` delivers when `remaining` bytes are left: any
      positive number of bytes it likes (here `want`, brought into range), and 0 only when
      nothing is left or asked for. */
  function Delivered(want: nat, len: nat, remaining: nat): nat {
    var most := if len < remaining then len else remaining;
    if most == 0 then 0 else if want == 0 then 1 else if want > most then most else want
  }

  /** Bytes of the current sub-block in the buffer after one round of the read loop for each of
      `wants`. */
  function Filled(wants: seq<nat>, size: nat, remaining: nat): (n: nat)
    ensures n <= size && n <= remaining
  {
    if wants == [] then 0
    else
      var last := |wants| - 1;
      var n := Filled(wants[..last], size, remaining);
      n + Delivered(wants[last], size - n, remaining - n)
  }

  lemma NothingFilled(size: nat, remaining: nat)
    ensures Filled([], size, remaining) == 0
  {
  }

  lemma SomeDelivered(want: nat, len: nat, remaining: nat)
    requires 0 < len <= remaining
    ensures 1 <= Delivered(want, len, remaining) <= len
  {
  }

  lemma FilledMore(wants: seq<nat>, want: nat, size: nat, remaining: nat)
    ensures var n := Filled(wants, size, remaining);
            Filled(wants + [want], size, remaining) == n + Delivered(want, size - n, remaining - n)
  {
    assert (wants + [want])[..|wants|] == wants;
  }

  lemma {:induction false} EachReadDelivers(wants: seq<nat>, size: nat, remaining: nat)
    requires size <= remaining
    ensures Filled(wants, size, remaining) >= if |wants| < size then |wants| else size
    decreases |wants|
  {
    if wants != [] {
      EachReadDelivers(wants[..|wants| - 1], size, remaining);
    }
  }

  /** The read loop of a sub-block ends, whatever sizes the reads return, exactly when the
      announced bytes exist; it then needs at most one round per byte. A read at the end of the
      stream returns 0, not the -1 that the loop tests for, so a truncated block loops forever. */
  lemma ReadLoopEndsIffBytesExist(size: nat, remaining: nat)
    ensures (exists wants :: Filled(wants, size, remaining) == size) <==> size <= remaining
    ensures size <= remaining ==> forall wants :: |wants| >= size ==> Filled(wants, size, remaining) == size
    ensures size > remaining ==> forall wants :: Filled(wants, size, remaining) < size
  {
    if size <= remaining {
      forall wants: seq<nat> | |wants| >= size
        ensures Filled(wants, size, remaining) == size
      {
        EachReadDelivers(wants, size, remaining);
      }
      var some := seq(size, _ => 1 as nat);
      EachReadDelivers(some, size, remaining);
    }
  }
}
