/** The blocks of a GIF data stream (Appendix B of the GIF89a specification), how they are laid out
    as bytes, and what they say is to be shown. */
module GifGrammar {
  import opened Bits
  import opened SubBlocks
  import opened LzwReference
  import opened LzwProgress
  import opened RowCopy

  /** `Padding` is a zero byte between blocks, which the decoder skips. */
  datatype Block =
    | Image(ix: nat, iy: nat, iw: nat, ih: nat, packed: byte, table: seq<byte>, codeSize: byte, data: seq<seq<byte>>)
    | GraphicControl(packed: byte, delay: nat, transparent: byte)
    | Application(id: seq<byte>, data: seq<seq<byte>>)
    | OtherExtension(kind: byte, data: seq<seq<byte>>)
    | Padding

  /** The graphic control in force: set by each graphic control block, and kept from then on. */
  datatype Control = Control(dispose: nat, transparency: bool, delay: nat, transIndex: byte)

  /** One frame: the screen before and after its image is drawn, and its delay in milliseconds. */
  datatype Frame = Frame(before: seq<int>, after: seq<int>, delay: nat)

  predicate Chunked(data: seq<seq<byte>>) {
    forall b <- data :: 0 < |b| < 256
  }

  /** `2 << (packed & 7)` */
  function TableSize(packed: byte): nat { Pow2(packed % 8 + 1) }

  predicate HasTable(packed: byte) { packed / 128 == 1 }

  predicate Interlaced(packed: byte) { packed / 64 % 2 == 1 }

  predicate BlockOk(b: Block) {
    match b
    case Image(ix, iy, iw, ih, packed, table, codeSize, data) =>
      ix < 0x1_0000 && iy < 0x1_0000 && iw < 0x1_0000 && ih < 0x1_0000 && Area(iw, ih) < 0x8000_0000 &&
      |table| == (if HasTable(packed) then 3 * TableSize(packed) else 0) &&
      2 <= codeSize <= 11 && Chunked(data) && DataSuffices(b)
    case GraphicControl(packed, delay, transparent) => delay < 0x1_0000
    case Application(id, data) => |id| == 11 && Chunked(data)
    case OtherExtension(kind, data) => kind != 0xf9 && kind != 0xff && Chunked(data)
    case Padding => true
  }

  /** What the reference decoder makes of the data of an image. */
  function OutcomeOf(b: Block): Outcome
    requires b.Image? && 2 <= b.codeSize <= 11
  {
    EmptyTableFits(b.codeSize);
    Decode(b.codeSize, Flatten(b.data), 0, EMPTY_TABLE, false)
  }

  /** The pixels of an image, row by row as transmitted. */
  function PixelsOf(b: Block): seq<byte>
    requires b.Image? && 2 <= b.codeSize <= 11
  {
    Padded(OutcomeOf(b).out, Area(b.iw, b.ih))
  }

  /** The image data fill the image or end with an end or other stopping code, and every first code
      met is a literal. */
  predicate DataSuffices(b: Block)
    requires b.Image? && 2 <= b.codeSize <= 11
  {
    !MeetsNonLiteral(OutcomeOf(b), Area(b.iw, b.ih)) && !RunsOut(OutcomeOf(b), Area(b.iw, b.ih))
  }

  function Short(n: nat): seq<byte>
    requires n < 0x1_0000
  {
    [n % 256, n / 256]
  }

  function Descriptor(b: Block): seq<byte>
    requires BlockOk(b) && b.Image?
  {
    Short(b.ix) + Short(b.iy) + Short(b.iw) + Short(b.ih) + [b.packed]
  }

  function Introducer(b: Block): byte {
    match b
    case Image(_, _, _, _, _, _, _, _) => 0x2c
    case Padding => 0
    case _ => 0x21
  }

  /** A block without its first byte. */
  function Body(b: Block): seq<byte>
    requires BlockOk(b)
  {
    match b
    case Image(_, _, _, _, _, table, codeSize, data) => Descriptor(b) + (table + ([codeSize] + Encode(data)))
    case GraphicControl(packed, delay, transparent) => [0xf9] + ([4, packed] + (Short(delay) + [transparent, 0]))
    case Application(id, data) => [0xff] + ([11] + (id + Encode(data)))
    case OtherExtension(kind, data) => [kind] + Encode(data)
    case Padding => []
  }

  function EncodeBlock(b: Block): seq<byte>
    requires BlockOk(b)
  {
    [Introducer(b)] + Body(b)
  }

  predicate AllOk(blocks: seq<Block>) { forall b <- blocks :: BlockOk(b) }

  function EncodeBlocks(blocks: seq<Block>): seq<byte>
    requires AllOk(blocks)
  {
    if blocks == [] then [] else EncodeBlock(blocks[0]) + EncodeBlocks(blocks[1..])
  }

  function ControlAfter(c: Control, b: Block): Control {
    match b
    case GraphicControl(packed, delay, transparent) =>
      var dispose := packed / 4 % 8;
      Control(if dispose == 0 then 1 else dispose, packed % 2 == 1, 10 * delay, transparent)
    case _ => c
  }

  /** Red, green and blue are the third, second and first byte of the colour; the fourth is 0xff. */
  predicate Mixes(c: int, r: byte, g: byte, b: byte) {
    -0x100_0000 <= c < 0 && (c + 0x100_0000) / 0x1_0000 == r && (c + 0x100_0000) / 0x100 % 0x100 == g && c % 0x100 == b
  }

  function Colour(r: byte, g: byte, b: byte): (c: int)
    ensures Mixes(c, r, g, b)
  {
    MixesBytes(r, g, b);
    0x1_0000 * r + 0x100 * g + b - 0x100_0000
  }

  lemma DivByte(q: int, m: int)
    requires 0 <= m < 0x100
    ensures (0x100 * q + m) / 0x100 == q && (0x100 * q + m) % 0x100 == m
  {
  }

  lemma DivTwoBytes(q: int, m: int)
    requires 0 <= m < 0x1_0000
    ensures (0x1_0000 * q + m) / 0x1_0000 == q
  {
  }

  lemma MixesBytes(r: byte, g: byte, b: byte)
    ensures Mixes(0x1_0000 * r + 0x100 * g + b - 0x100_0000, r, g, b)
  {
    DivTwoBytes(r, 0x100 * g + b);
    DivByte(0x100 * r + g, b);
    DivByte(r, g);
    DivByte(0x100 * r + g - 0x1_0000, b);
  }

  lemma MixesParts(c: int, r: byte, g: byte, b: byte)
    requires Mixes(c, r, g, b)
    ensures -0x100_0000 <= c < 0 && (c + 0x100_0000) / 0x1_0000 == r
    ensures (c + 0x100_0000) / 0x100 % 0x100 == g && c % 0x100 == b
  {
  }

  lemma MixesOne(c: int, r: byte, g: byte, b: byte)
    requires Mixes(c, r, g, b)
    ensures c == Colour(r, g, b)
  {
    var n := c + 0x100_0000;
    assert n / 0x100 / 0x100 == n / 0x1_0000 && n % 0x100 == c % 0x100;
    assert n == 0x100 * (n / 0x100) + n % 0x100 && n / 0x100 == 0x100 * (n / 0x100 / 0x100) + n / 0x100 % 0x100;
  }

  /** A table that mixes the bytes is the table of colours. */
  lemma TableIs(c: seq<byte>, t: seq<int>, ncolors: nat)
    requires |t| == 256 && ncolors <= 256 && |c| == 3 * ncolors
    requires forall l | 0 <= l < ncolors :: Mixes(t[l], c[3 * l], c[3 * l + 1], c[3 * l + 2])
    requires forall l | ncolors <= l < 256 :: t[l] == 0
    ensures t == Colours(c)
  {
    forall l | 0 <= l < 256
      ensures t[l] == Colours(c)[l]
    {
      if l < ncolors {
        MixesOne(t[l], c[3 * l], c[3 * l + 1], c[3 * l + 2]);
      }
      hide Mixes, Colour;
    }
    hide Colours;
  }

  /** The flags and numbers in a packed byte, as the decoder takes them out. */
  lemma PackedBits(packed: byte)
    ensures BitAnd(packed, 0x80) != 0 <==> HasTable(packed)
    ensures BitAnd(packed, 0x40) != 0 <==> Interlaced(packed)
    ensures BitAnd(packed, 1) != 0 <==> packed % 2 == 1
    ensures BitAnd(packed, 7) == packed % 8 && Shr(BitAnd(packed, 0x1c), 2) == packed / 4 % 8
  {
    hide BitAnd;
    BitAndOne(packed);
    SevenMask(packed);
    OneFlag(packed, 7);
    OneFlag(packed, 6);
    Shifts(packed);
    DisposalBits(packed);
  }

  lemma ShrThree(x: nat)
    ensures Shr(x, 3) == x / 8 && Shr(x, 2) == x / 4 && Shr(x, 1) == x / 2
  {
    assert Shr(x, 1) == x / 2;
    assert Shr(x, 2) == x / 2 / 2;
    assert Shr(x, 3) == x / 2 / 2 / 2;
  }

  lemma ShlTwoBits(x: nat)
    ensures Shl(x, 2) == 4 * x
  {
    assert Shl(x, 1) == 2 * x;
  }

  lemma Shifts(x: nat)
    ensures Shr(x, 7) == x / 128 && Shr(x, 6) == x / 64 && Shr(x, 2) == x / 4 && Shl(x, 2) == 4 * x
    ensures Shl(1, 7) == 0x80 && Shl(1, 6) == 0x40 && Shl(7, 2) == 0x1c
  {
    ShlTwoBits(x);
    ShlTwoBits(7);
    ShlOne(7);
    ShlOne(6);
    Pow2Values();
    hide Shr, Shl, Pow2;
    ShrThree(x);
    ShrThree(x / 8);
    ShrThree(x / 64);
    ShrTwice(x, 3, 3);
    ShrTwice(x, 6, 1);
  }

  lemma OneFlag(x: nat, k: nat)
    ensures BitAnd(x, Shl(1, k)) != 0 <==> Shr(x, k) % 2 == 1
  {
    hide BitAnd;
    BitAndShl(x, 1, k);
    BitAndOne(Shr(x, k));
    ShlOne(k);
    ShlNothing(k);
  }

  lemma {:induction false} ShlNothing(k: nat)
    ensures Shl(0, k) == 0
  {
    if k > 0 {
      ShlNothing(k - 1);
    }
  }

  lemma DisposalBits(packed: byte)
    ensures Shr(BitAnd(packed, 0x1c), 2) == packed / 4 % 8
  {
    hide BitAnd;
    Shifts(packed);
    BitAndShl(packed, 7, 2);
    SevenMask(Shr(packed, 2));
    Shifts(packed / 4 % 8);
    Shifts(4 * (packed / 4 % 8));
  }

  lemma SevenMask(x: nat)
    ensures BitAnd(x, 7) == x % 8
  {
    Pow2Values();
    BitAndMask(x, 3);
    assert Low(x, 3) == x % 2 + 2 * Low(x / 2, 2);
    assert Low(x / 2, 2) == x / 2 % 2 + 2 * Low(x / 2 / 2, 1);
    assert Low(x / 2 / 2, 1) == x / 2 / 2 % 2 + 2 * Low(x / 2 / 2 / 2, 0);
    hide BitAnd, Pow2, Low;
  }

  /** The 256 packed colours of a table of red, green and blue bytes; entries past its end are 0. */
  function Colours(bytes: seq<byte>): (t: seq<int>)
    ensures |t| == 256
  {
    seq(256, i requires 0 <= i < 256 =>
      if 3 * i + 2 < |bytes| then Colour(bytes[3 * i], bytes[3 * i + 1], bytes[3 * i + 2]) else 0)
  }

  /** The colours an image is drawn with: its own table or else the global one, the transparent
      colour being zero. */
  function ActiveColours(b: Block, c: Control, global: seq<int>): (t: seq<int>)
    requires BlockOk(b) && b.Image? && (HasTable(b.packed) || |global| == 256)
    ensures |t| == 256
  {
    var t := if HasTable(b.packed) then Colours(b.table) else global;
    if c.transparency then t[c.transIndex := 0] else t
  }

  function PictureOf(b: Block, c: Control, global: seq<int>, width: nat, height: nat): (p: Picture)
    requires BlockOk(b) && b.Image? && (HasTable(b.packed) || |global| == 256)
    ensures WellSized(p)
  {
    Picture(Geometry(b.ix, b.iy, b.iw, b.ih, Interlaced(b.packed), width, height),
            PixelsOf(b), ActiveColours(b, c, global))
  }

  predicate Drawable(b: Block, global: seq<int>) {
    BlockOk(b) && (b.Image? ==> HasTable(b.packed) || |global| == 256)
  }

  predicate AllDrawable(blocks: seq<Block>, global: seq<int>) { forall b <- blocks :: Drawable(b, global) }

  /** The frame shows the image, drawn under control `c`. */
  predicate Shows(f: Frame, b: Block, c: Control, global: seq<int>, width: nat, height: nat)
    requires b.Image? && Drawable(b, global)
  {
    f.delay == c.delay && ScreenDrawn(PictureOf(b, c, global, width, height), f.before, f.after, b.ih)
  }

  /** One frame per image, in order, each drawn under the control last set before it. */
  predicate FramesFor(frames: seq<Frame>, blocks: seq<Block>, c: Control, global: seq<int>, width: nat, height: nat)
    requires AllDrawable(blocks, global)
    decreases |blocks|
  {
    if blocks == [] then frames == []
    else if blocks[0].Image? then
      frames != [] && Shows(frames[0], blocks[0], c, global, width, height) &&
      FramesFor(frames[1..], blocks[1..], c, global, width, height)
    else FramesFor(frames, blocks[1..], ControlAfter(c, blocks[0]), global, width, height)
  }

  function ImageCount(blocks: seq<Block>): nat {
    if blocks == [] then 0 else (if blocks[0].Image? then 1 else 0) + ImageCount(blocks[1..])
  }

  function ControlAfterAll(c: Control, blocks: seq<Block>): Control
    decreases |blocks|
  {
    if blocks == [] then c else ControlAfterAll(ControlAfter(c, blocks[0]), blocks[1..])
  }

  lemma {:induction false} FramesStep(frames: seq<Frame>, blocks: seq<Block>, b: Block, more: seq<Frame>, c: Control,
                                      global: seq<int>, width: nat, height: nat)
    requires AllDrawable(blocks, global) && Drawable(b, global)
    requires FramesFor(frames, blocks, c, global, width, height)
    requires if b.Image? then |more| == 1 && Shows(more[0], b, ControlAfterAll(c, blocks), global, width, height)
        else more == []
    ensures AllDrawable(blocks + [b], global) && FramesFor(frames + more, blocks + [b], c, global, width, height)
    ensures ControlAfterAll(c, blocks + [b]) == ControlAfter(ControlAfterAll(c, blocks), b)
    decreases |blocks|
  {
    assert blocks != [] && blocks[0].Image? ==> ControlAfter(c, blocks[0]) == c;
    hide Shows, Drawable, ControlAfter;
    if blocks == [] {
      assert blocks + [b] == [b];
      assert frames + more == more;
    } else {
      assert (blocks + [b])[1..] == blocks[1..] + [b];
      if blocks[0].Image? {
        assert (frames + more)[1..] == frames[1..] + more;
        FramesStep(frames[1..], blocks[1..], b, more, c, global, width, height);
      } else {
        FramesStep(frames, blocks[1..], b, more, ControlAfter(c, blocks[0]), global, width, height);
      }
    }
  }

  lemma {:induction false} FramesCount(frames: seq<Frame>, blocks: seq<Block>, c: Control, global: seq<int>,
                                       width: nat, height: nat)
    requires AllDrawable(blocks, global) && FramesFor(frames, blocks, c, global, width, height)
    ensures |frames| == ImageCount(blocks)
    decreases |blocks|
  {
    if blocks != [] {
      if blocks[0].Image? {
        FramesCount(frames[1..], blocks[1..], c, global, width, height);
      } else {
        FramesCount(frames, blocks[1..], ControlAfter(c, blocks[0]), global, width, height);
      }
    }
  }

  lemma AtChain(stream: seq<byte>, pos: nat, data: seq<seq<byte>>)
    requires Chunked(data) && At(stream, pos, Encode(data))
    ensures Framed(stream, pos) && Payload(stream, pos) == Flatten(data)
    ensures ChainEnd(stream, pos) == pos + |Encode(data)|
  {
    ReadsBack(stream, pos, data);
  }

  lemma GraphicControlBytes(stream: seq<byte>, pos: nat, b: Block)
    requires b.GraphicControl? && BlockOk(b) && At(stream, pos, [4, b.packed] + (Short(b.delay) + [b.transparent, 0]))
    ensures pos + 6 <= |stream| && stream[pos + 1] == b.packed && stream[pos + 4] == b.transparent
    ensures b.delay == stream[pos + 2] as int + 0x100 * (stream[pos + 3] as int)
  {
    var s := stream[pos..pos + 6];
    assert s == [4, b.packed] + (Short(b.delay) + [b.transparent, 0]);
    assert s[1] == b.packed && s[2] == b.delay % 256 && s[3] == b.delay / 256 && s[4] == b.transparent;
  }

  lemma DescriptorBytes(stream: seq<byte>, pos: nat, b: Block)
    requires b.Image? && BlockOk(b) && At(stream, pos, Descriptor(b))
    ensures pos + 9 <= |stream| && stream[pos + 8] == b.packed
    ensures b.ix == stream[pos] as int + 0x100 * (stream[pos + 1] as int)
    ensures b.iy == stream[pos + 2] as int + 0x100 * (stream[pos + 3] as int)
    ensures b.iw == stream[pos + 4] as int + 0x100 * (stream[pos + 5] as int)
    ensures b.ih == stream[pos + 6] as int + 0x100 * (stream[pos + 7] as int)
  {
    assert b.ix < 0x1_0000 && b.iy < 0x1_0000 && b.iw < 0x1_0000 && b.ih < 0x1_0000;
    hide BlockOk;
    AtSplit(stream, pos, Short(b.ix) + Short(b.iy) + Short(b.iw) + Short(b.ih), [b.packed]);
    AtSplit(stream, pos, Short(b.ix) + Short(b.iy) + Short(b.iw), Short(b.ih));
    AtSplit(stream, pos, Short(b.ix) + Short(b.iy), Short(b.iw));
    AtSplit(stream, pos, Short(b.ix), Short(b.iy));
    AtShort(stream, pos, b.ix);
    AtShort(stream, pos + 2, b.iy);
    AtShort(stream, pos + 4, b.iw);
    AtShort(stream, pos + 6, b.ih);
    AtByte(stream, pos + 8, b.packed, []);
  }

  lemma AtShort(stream: seq<byte>, pos: nat, n: nat)
    requires n < 0x1_0000 && At(stream, pos, Short(n))
    ensures pos + 2 <= |stream| && n == stream[pos] as int + 0x100 * (stream[pos + 1] as int)
  {
    assert stream[pos] == stream[pos..pos + 2][0] && stream[pos + 1] == stream[pos..pos + 2][1];
  }

  lemma TableSizes(packed: byte)
    ensures Shl(2, packed % 8) == TableSize(packed) <= 256
  {
    ShlTwo(packed % 8);
    Pow2Values();
    Pow2Less(packed % 8 + 1, 8);
  }

  lemma TableBytes(stream: seq<byte>, pos: nat, b: Block)
    requires b.Image? && BlockOk(b) && At(stream, pos, b.table)
    ensures pos + |b.table| <= |stream| && stream[pos..pos + |b.table|] == b.table
    ensures |b.table| == if HasTable(b.packed) then 3 * TableSize(b.packed) else 0
  {
  }

  /** Where the parts of an image are. */
  lemma ImageParts(stream: seq<byte>, pos: nat, b: Block)
    requires b.Image? && BlockOk(b)
    requires At(stream, pos, Descriptor(b) + (b.table + ([b.codeSize] + Encode(b.data))))
    ensures At(stream, pos, Descriptor(b)) && |Descriptor(b)| == 9 && At(stream, pos + 9, b.table)
    ensures At(stream, pos + 9 + |b.table|, [b.codeSize] + Encode(b.data))
    ensures |Descriptor(b) + (b.table + ([b.codeSize] + Encode(b.data)))| == 10 + |b.table| + |Encode(b.data)|
  {
    var d, rest := Descriptor(b), [b.codeSize] + Encode(b.data);
    assert |d| == 9;
    hide *;
    AtSplit(stream, pos, d, b.table + rest);
    AtSplit(stream, pos + 9, b.table, rest);
  }

  /** What the data of an image decode to. */
  lemma DataBytes(stream: seq<byte>, pos: nat, b: Block)
    requires b.Image? && BlockOk(b) && At(stream, pos, [b.codeSize] + Encode(b.data))
    ensures pos < |stream| && stream[pos] == b.codeSize && 2 <= b.codeSize <= 11 && Framed(stream, pos + 1)
    ensures ImageOutcome(stream, pos) == OutcomeOf(b) &&
        PixelsOf(b) == Padded(ImageOutcome(stream, pos).out, Area(b.iw, b.ih))
    ensures ChainEnd(stream, pos + 1) == pos + 1 + |Encode(b.data)|
    ensures !MeetsNonLiteral(OutcomeOf(b), Area(b.iw, b.ih)) && !RunsOut(OutcomeOf(b), Area(b.iw, b.ih))
    ensures Area(b.iw, b.ih) < 0x8000_0000
  {
    assert Chunked(b.data) && DataSuffices(b);
    AtByte(stream, pos, b.codeSize, Encode(b.data));
    AtChain(stream, pos + 1, b.data);
    hide At, Encode, Decode, MeetsNonLiteral, RunsOut, Chunked, Framed, Payload, ChainEnd, Flatten;
  }

  lemma FrameShows(f: Frame, b: Block, c: Control, global: seq<int>, width: nat, height: nat)
    requires b.Image? && Drawable(b, global) && f.delay == c.delay
    requires ScreenDrawn(PictureOf(b, c, global, width, height), f.before, f.after, b.ih)
    ensures Shows(f, b, c, global, width, height)
  {
  }

  lemma DrawableImage(b: Block, global: seq<int>)
    requires b.Image? && BlockOk(b)
    ensures Drawable(b, global) <==> HasTable(b.packed) || |global| == 256
  {
  }

  lemma PictureParts(b: Block, c: Control, global: seq<int>, width: nat, height: nat)
    requires b.Image? && Drawable(b, global)
    ensures var p := PictureOf(b, c, global, width, height);
            var t := if HasTable(b.packed) then Colours(b.table) else global;
            WellSized(p) && p.g == Geometry(b.ix, b.iy, b.iw, b.ih, Interlaced(b.packed), width, height) &&
            BlockOk(b) && p.indices == PixelsOf(b) && p.colours == if c.transparency then t[c.transIndex := 0] else t
  {
  }

  /** The loop count after the sub-blocks of a NETSCAPE2.0 extension. */
  function LoopCount(data: seq<seq<byte>>, n: int): int
    requires forall b <- data :: |b| >= 3
    decreases |data|
  {
    if data == [] then n
    else LoopCount(data[1..], if data[0][0] == 1 then data[0][1] as int + 0x100 * (data[0][2] as int) else n)
  }

  /** "NETSCAPE2.0" */
  const NETSCAPE: seq<byte> := [0x4e, 0x45, 0x54, 0x53, 0x43, 0x41, 0x50, 0x45, 0x32, 0x2e, 0x30]

  predicate SetsLoop(b: Block) { b.Application? && b.id == NETSCAPE }

  /** The loop count follows from the block alone. */
  predicate LongLoops(b: Block) { SetsLoop(b) ==> forall x <- b.data :: |x| >= 3 }

  function LoopAfter(b: Block, n: int): int { if SetsLoop(b) && LongLoops(b) then LoopCount(b.data, n) else n }

  /** What the first block of `rest`, if there is one, makes of the loop count. */
  predicate LoopActed(rest: seq<Block>, n: int, n': int) {
    if rest == [] then n' == n else LongLoops(rest[0]) ==> n' == LoopAfter(rest[0], n)
  }

  /** The loop count after the first k blocks. */
  function LoopAfterFirst(blocks: seq<Block>, k: nat, n: int): int
    requires k <= |blocks|
  {
    if k == 0 then n else LoopAfter(blocks[k - 1], LoopAfterFirst(blocks, k - 1, n))
  }

  predicate LoopAt(blocks: seq<Block>, k: nat, n: int, loop: int)
    requires k <= |blocks|
  {
    (forall j :: 0 <= j < k ==> LongLoops(blocks[j])) ==> loop == LoopAfterFirst(blocks, k, n)
  }

  lemma LoopStart(blocks: seq<Block>, n: int)
    ensures LoopAt(blocks, 0, n, n)
  {
  }

  lemma LoopStep(blocks: seq<Block>, k: nat, n: int, loop: int, loop': int)
    requires k <= |blocks| && LoopAt(blocks, k, n, loop) && LoopActed(blocks[k..], loop, loop')
    ensures LoopAt(blocks, if k < |blocks| then k + 1 else k, n, loop')
  {
    hide LongLoops, LoopAfter;
    if k < |blocks| {
      assert blocks[k..][0] == blocks[k];
    }
  }

  /** The first sub-block of a chain, or its terminator. */
  lemma ChainStep(stream: seq<byte>, pos: nat, data: seq<seq<byte>>)
    requires Chunked(data) && At(stream, pos, Encode(data))
    ensures Framed(stream, pos) && pos < |stream|
    ensures data == [] ==> stream[pos] == 0 && |Encode(data)| == 1
    ensures data != [] ==>
              var n := |data[0]|;
              stream[pos] == n > 0 && pos + 1 + n <= |stream| && stream[pos + 1..pos + 1 + n] == data[0] &&
              Chunked(data[1..]) && At(stream, pos + 1 + n, Encode(data[1..])) &&
              |Encode(data)| == 1 + n + |Encode(data[1..])|
  {
    AtChain(stream, pos, data);
    if data == [] {
      AtByte(stream, pos, 0, []);
    } else {
      var b, rest := data[0], Encode(data[1..]);
      assert Encode(data) == [|b|] + (b + rest);
      AtByte(stream, pos, |b|, b + rest);
      AtSplit(stream, pos + 1, b, rest);
    }
  }

  /** Where the parts of an application extension are. */
  lemma ApplicationParts(stream: seq<byte>, pos: nat, b: Block)
    requires b.Application? && BlockOk(b) && At(stream, pos, [11] + (b.id + Encode(b.data)))
    ensures Framed(stream, pos) && pos + 12 <= |stream| && stream[pos] == 11
    ensures stream[pos + 1..pos + 12] == b.id && At(stream, pos + 12, Encode(b.data)) && Framed(stream, pos + 12)
    ensures ChainEnd(stream, pos + 12) == pos + 12 + |Encode(b.data)|
  {
    AtByte(stream, pos, 11, b.id + Encode(b.data));
    AtSplit(stream, pos + 1, b.id, Encode(b.data));
    AtChain(stream, pos + 12, b.data);
  }

  lemma NoFrames(c: Control, global: seq<int>, width: nat, height: nat)
    ensures AllDrawable([], global) && FramesFor([], [], c, global, width, height) && ControlAfterAll(c, []) == c
  {
  }

  lemma AtRest(stream: seq<byte>, pos: nat, blocks: seq<Block>)
    requires AllOk(blocks) && At(stream, pos, EncodeBlocks(blocks))
    ensures pos + |EncodeBlocks(blocks)| <= |stream|
    ensures blocks == [] ==> EncodeBlocks(blocks) == []
    ensures blocks != [] ==>
              BlockOk(blocks[0]) && pos < |stream| && stream[pos] == Introducer(blocks[0]) &&
              At(stream, pos + 1, Body(blocks[0])) &&
              AllOk(blocks[1..]) && At(stream, pos + 1 + |Body(blocks[0])|, EncodeBlocks(blocks[1..])) &&
              |EncodeBlocks(blocks)| == 1 + |Body(blocks[0])| + |EncodeBlocks(blocks[1..])|
  {
    if blocks != [] {
      OneBlock(stream, pos, blocks);
    }
  }

  lemma OneBlock(stream: seq<byte>, pos: nat, blocks: seq<Block>)
    requires blocks != [] && AllOk(blocks) && At(stream, pos, EncodeBlocks(blocks))
    ensures pos < |stream| && stream[pos] == Introducer(blocks[0]) && At(stream, pos + 1, Body(blocks[0]))
    ensures AllOk(blocks[1..]) && At(stream, pos + 1 + |Body(blocks[0])|, EncodeBlocks(blocks[1..]))
    ensures |EncodeBlocks(blocks)| == 1 + |Body(blocks[0])| + |EncodeBlocks(blocks[1..])|
  {
    var b, rest := blocks[0], EncodeBlocks(blocks[1..]);
    hide BlockOk, Body, Introducer, At;
    AtSplit(stream, pos, EncodeBlock(b), rest);
    AtByte(stream, pos, Introducer(b), Body(b));
  }

  lemma BodyParts(b: Block, global: seq<int>)
    requires Drawable(b, global)
    ensures BlockOk(b)
    ensures b.Image? <==> Introducer(b) == 0x2c
    ensures b.Padding? <==> Introducer(b) == 0
    ensures !b.Image? && !b.Padding? <==> Introducer(b) == 0x21
    ensures b.Image? ==>
              Body(b) == Descriptor(b) + (b.table + ([b.codeSize] + Encode(b.data))) &&
              |Body(b)| == 10 + |b.table| + |Encode(b.data)|
    ensures b.Padding? ==> Body(b) == []
    ensures !b.GraphicControl? ==> forall c :: ControlAfter(c, b) == c
  {
  }

  lemma PartDrawable(blocks: seq<Block>, global: seq<int>, k: nat)
    requires AllDrawable(blocks, global) && k <= |blocks|
    ensures AllOk(blocks) && AllOk(blocks[k..]) && AllDrawable(blocks[..k], global) && blocks[..|blocks|] == blocks
    ensures k < |blocks| ==>
              Drawable(blocks[k], global) && blocks[..k + 1] == blocks[..k] + [blocks[k]] &&
              blocks[k..][1..] == blocks[k + 1..]
  {
  }

  lemma FramesNext(frames: seq<Frame>, blocks: seq<Block>, k: nat, more: seq<Frame>, c: Control,
                   global: seq<int>, width: nat, height: nat)
    requires k < |blocks| && AllDrawable(blocks, global) && AllDrawable(blocks[..k], global)
    requires FramesFor(frames, blocks[..k], c, global, width, height) && Drawable(blocks[k], global)
    requires if blocks[k].Image? then
               |more| == 1 && Shows(more[0], blocks[k], ControlAfterAll(c, blocks[..k]), global, width, height)
             else more == []
    ensures AllDrawable(blocks[..k + 1], global) && FramesFor(frames + more, blocks[..k + 1], c, global, width, height)
    ensures ControlAfterAll(c, blocks[..k + 1]) == ControlAfter(ControlAfterAll(c, blocks[..k]), blocks[k])
  {
    PartDrawable(blocks, global, k);
    hide *;
    FramesStep(frames, blocks[..k], blocks[k], more, c, global, width, height);
  }

  const STATUS_OK := 0
  const STATUS_FORMAT_ERROR := 1

  /** What reading blocks changes: the cursor, the status, the control in force and the frames. */
  datatype View = View(pos: nat, status: int, control: Control, frames: seq<Frame>)

  /** The state of the block loop after the first k blocks: their frames, the control they leave,
      and the other blocks ahead; or the end of the loop, at the byte after the last block. */
  predicate InBlocks(stream: seq<byte>, blocks: seq<Block>, k: nat, end: nat, c: Control, global: seq<int>,
                     width: nat, height: nat, v: View, done: bool)
  {
    && k <= |blocks| && AllDrawable(blocks, global) && AllDrawable(blocks[..k], global)
    && FramesFor(v.frames, blocks[..k], c, global, width, height)
    && v.control == ControlAfterAll(c, blocks[..k])
    && (end < |stream| ==> stream[end] !in {0x2c, 0x21, 0})
    && if done || v.status != STATUS_OK then
         k == |blocks| && done == (end < |stream| && stream[end] == 0x3b) &&
         (if done then v.status == STATUS_OK && v.pos == end + 1 else v.status == STATUS_FORMAT_ERROR)
       else
         AllOk(blocks[k..]) && At(stream, v.pos, EncodeBlocks(blocks[k..])) &&
         v.pos + |EncodeBlocks(blocks[k..])| == end
  }

  lemma BlocksStart(stream: seq<byte>, blocks: seq<Block>, end: nat, c: Control, global: seq<int>,
                    width: nat, height: nat, v: View)
    requires AllDrawable(blocks, global) && AllOk(blocks) && At(stream, v.pos, EncodeBlocks(blocks))
    requires end == v.pos + |EncodeBlocks(blocks)| && (end < |stream| ==> stream[end] !in {0x2c, 0x21, 0})
    requires v.status == STATUS_OK && v.control == c && v.frames == []
    ensures InBlocks(stream, blocks, 0, end, c, global, width, height, v, false)
  {
    NoFrames(c, global, width, height);
    PartDrawable(blocks, global, 0);
    hide At, EncodeBlocks, FramesFor, ControlAfterAll, AllDrawable, AllOk;
    assert blocks[0..] == blocks && blocks[..0] == [];
  }

  /** What reading the next byte and acting on it amounts to, from `v0` to `v`: it introduces the
      first block of `rest` (`more` is the frame of an image), or follows the last block. */
  predicate BlockActed(stream: seq<byte>, rest: seq<Block>, global: seq<int>, width: nat, height: nat, v0: View,
                       v: View, done: bool, more: seq<Frame>)
    requires rest != [] ==> Drawable(rest[0], global)
  {
    if rest == [] then
      var code: int := if v0.pos < |stream| then stream[v0.pos] as int else -1;
      v.pos == (if v0.pos < |stream| then v0.pos + 1 else v0.pos) && v.frames == v0.frames && v.control == v0.control &&
      done == (code == 0x3b) && v.status == if done then STATUS_OK else STATUS_FORMAT_ERROR
    else
      !done && v.status == STATUS_OK && v.pos == v0.pos + 1 + |Body(rest[0])| &&
      v.control == ControlAfter(v0.control, rest[0]) && v.frames == v0.frames + more &&
      if rest[0].Image? then |more| == 1 && Shows(more[0], rest[0], v0.control, global, width, height) else more == []
  }

  /** What acting on a byte amounts to, after it is read. */
  predicate CodeActed(code: int, rest: seq<Block>, global: seq<int>, width: nat, height: nat, v0: View, v: View,
                      done: bool, more: seq<Frame>)
    requires rest != [] ==> Drawable(rest[0], global)
  {
    v.frames == v0.frames + more &&
    if rest == [] then
      v.pos == v0.pos && more == [] && v.control == v0.control &&
      done == (code == 0x3b) && v.status == if done then STATUS_OK else STATUS_FORMAT_ERROR
    else
      !done && v.status == STATUS_OK && v.pos == v0.pos + |Body(rest[0])| &&
      v.control == ControlAfter(v0.control, rest[0]) &&
      if rest[0].Image? then |more| == 1 && Shows(more[0], rest[0], v0.control, global, width, height) else more == []
  }

  lemma CodeIsBlock(stream: seq<byte>, rest: seq<Block>, global: seq<int>, width: nat, height: nat, v0: View,
                    v1: View, code: int, v: View, done: bool, more: seq<Frame>)
    requires rest != [] ==> Drawable(rest[0], global)
    requires v1 == v0.(pos := if v0.pos < |stream| then v0.pos + 1 else v0.pos) && (rest != [] ==> v0.pos < |stream|)
    requires code == if v0.pos < |stream| then stream[v0.pos] as int else -1
    requires CodeActed(code, rest, global, width, height, v1, v, done, more)
    ensures BlockActed(stream, rest, global, width, height, v0, v, done, more)
  {
    hide Drawable, Shows, Body, ControlAfter;
    assert more == [] ==> v0.frames + more == v0.frames;
  }

  /** Where the data of an image that begin at pos end. */
  function DataEnd(b: Block, pos: nat): nat {
    if b.Image? && BlockOk(b) then pos + 1 + |Encode(b.data)| else pos
  }

  /** The length of the descriptor and the table. */
  function TableEnd(b: Block): nat { if b.Image? then 9 + |b.table| else 0 }

  lemma TableEndIs(b: Block)
    ensures b.Image? ==> TableEnd(b) == 9 + |b.table|
  {
  }

  lemma RoundStart(stream: seq<byte>, blocks: seq<Block>, k: nat, rest: seq<Block>, end: nat, c: Control,
                   global: seq<int>, width: nat, height: nat, v: View)
    requires InBlocks(stream, blocks, k, end, c, global, width, height, v, false) && v.status == STATUS_OK
    requires k <= |blocks| && rest == blocks[k..]
    ensures v.pos <= |stream|
    ensures if rest == [] then v.pos == end && (end < |stream| ==> stream[end] !in {0x2c, 0x21, 0})
            else Drawable(rest[0], global) && v.pos < |stream| && stream[v.pos] == Introducer(rest[0]) &&
                 At(stream, v.pos + 1, Body(rest[0]))
  {
    PartDrawable(blocks, global, k);
    AtRest(stream, v.pos, blocks[k..]);
  }

  lemma RoundOn(stream: seq<byte>, blocks: seq<Block>, k: nat, end: nat, c: Control, global: seq<int>,
                width: nat, height: nat, v: View, v2: View, more: seq<Frame>)
    requires InBlocks(stream, blocks, k, end, c, global, width, height, v, false) && v.status == STATUS_OK
    requires k < |blocks| && Drawable(blocks[k], global)
    requires BlockActed(stream, [blocks[k]], global, width, height, v, v2, false, more)
    ensures InBlocks(stream, blocks, k + 1, end, c, global, width, height, v2, false) && v2.status == STATUS_OK
  {
    hide *;
    RoundFacts(stream, blocks, k, end, c, global, width, height, v, v2, more);
    FramesNext(v.frames, blocks, k, more, c, global, width, height);
    RestAt(blocks, k);
    AtSome(stream, v.pos, blocks[k..], blocks[k], blocks[k + 1..]);
    InBlocksAgain(stream, blocks, k + 1, end, c, global, width, height, v2);
  }

  lemma InBlocksAgain(stream: seq<byte>, blocks: seq<Block>, k: nat, end: nat, c: Control, global: seq<int>,
                      width: nat, height: nat, v: View)
    requires k <= |blocks| && AllDrawable(blocks, global) && AllDrawable(blocks[..k], global)
    requires FramesFor(v.frames, blocks[..k], c, global, width, height) && v.control == ControlAfterAll(c, blocks[..k])
    requires v.status == STATUS_OK && (end < |stream| ==> stream[end] !in {0x2c, 0x21, 0})
    requires AllOk(blocks[k..]) && At(stream, v.pos, EncodeBlocks(blocks[k..])) &&
        v.pos + |EncodeBlocks(blocks[k..])| == end
    ensures InBlocks(stream, blocks, k, end, c, global, width, height, v, false)
  {
    hide At, EncodeBlocks, FramesFor, ControlAfterAll, AllOk, AllDrawable;
  }

  lemma RestAt(blocks: seq<Block>, k: nat)
    requires k < |blocks|
    ensures blocks[k..] != [] && blocks[k..][0] == blocks[k] && blocks[k..][1..] == blocks[k + 1..]
  {
  }

  lemma AtSome(stream: seq<byte>, pos: nat, blocks: seq<Block>, b: Block, rest: seq<Block>)
    requires AllOk(blocks) && blocks != [] && BlockOk(b) && b == blocks[0] && rest == blocks[1..]
    requires At(stream, pos, EncodeBlocks(blocks))
    ensures AllOk(rest) && At(stream, pos + 1 + |Body(b)|, EncodeBlocks(rest))
    ensures |EncodeBlocks(blocks)| == 1 + |Body(b)| + |EncodeBlocks(rest)|
  {
    hide *;
    OneBlock(stream, pos, blocks);
  }

  lemma RoundFacts(stream: seq<byte>, blocks: seq<Block>, k: nat, end: nat, c: Control, global: seq<int>,
                   width: nat, height: nat, v: View, v2: View, more: seq<Frame>)
    requires InBlocks(stream, blocks, k, end, c, global, width, height, v, false) && v.status == STATUS_OK
    requires k < |blocks| && Drawable(blocks[k], global)
    requires BlockActed(stream, [blocks[k]], global, width, height, v, v2, false, more)
    ensures AllDrawable(blocks, global) && AllDrawable(blocks[..k], global)
    ensures FramesFor(v.frames, blocks[..k], c, global, width, height) && v.control == ControlAfterAll(c, blocks[..k])
    ensures end < |stream| ==> stream[end] !in {0x2c, 0x21, 0}
    ensures AllOk(blocks[k..]) && At(stream, v.pos, EncodeBlocks(blocks[k..])) &&
        v.pos + |EncodeBlocks(blocks[k..])| == end
    ensures BlockOk(blocks[k]) && v2.status == STATUS_OK && v2.pos == v.pos + 1 + |Body(blocks[k])|
    ensures v2.control == ControlAfter(v.control, blocks[k]) && v2.frames == v.frames + more
    ensures if blocks[k].Image? then |more| == 1 && Shows(more[0], blocks[k], v.control, global, width, height)
        else more == []
  {
    hide At, EncodeBlocks, FramesFor, ControlAfterAll, ControlAfter, AllOk, AllDrawable, Body, Shows, Introducer;
  }

  /** Acting on one more block leads from one state of the block loop to the next. */
  lemma RoundDone(stream: seq<byte>, blocks: seq<Block>, k: nat, rest: seq<Block>, end: nat, c: Control,
                  global: seq<int>, width: nat, height: nat, v: View, v2: View, done: bool, more: seq<Frame>)
    requires InBlocks(stream, blocks, k, end, c, global, width, height, v, false) && v.status == STATUS_OK
    requires k <= |blocks| && rest == blocks[k..] && (rest != [] ==> Drawable(rest[0], global))
    requires BlockActed(stream, rest, global, width, height, v, v2, done, more)
    ensures InBlocks(stream, blocks, if k < |blocks| then k + 1 else k, end, c, global, width, height, v2, done)
    ensures k < |blocks| || done || v2.status != STATUS_OK
  {
    if k < |blocks| {
      assert rest[0] == blocks[k] == [blocks[k]][0];
      hide InBlocks, Drawable, Shows, Body, ControlAfter, AllDrawable;
      RoundOn(stream, blocks, k, end, c, global, width, height, v, v2, more);
    } else {
      PartDrawable(blocks, global, k);
      AtRest(stream, v.pos, rest);
      hide FramesFor, ControlAfterAll, AllDrawable;
    }
  }

  lemma LoopOver(stream: seq<byte>, blocks: seq<Block>, k: nat, end: nat, c: Control, global: seq<int>,
                 width: nat, height: nat, v: View, done: bool)
    requires InBlocks(stream, blocks, k, end, c, global, width, height, v, done) && (done || v.status != STATUS_OK)
    ensures if end < |stream| && stream[end] == 0x3b then v.status == STATUS_OK && v.pos == end + 1
            else v.status == STATUS_FORMAT_ERROR
    ensures AllDrawable(blocks, global) && FramesFor(v.frames, blocks, c, global, width, height)
    ensures |v.frames| == ImageCount(blocks)
  {
    PartDrawable(blocks, global, k);
    FramesCount(v.frames, blocks, c, global, width, height);
  }

  /** A whole GIF file: header, logical screen descriptor, global colour table and blocks. */
  datatype Gif = Gif(version: seq<byte>, width: nat, height: nat, packed: byte, background: byte, aspect: byte,
                     table: seq<byte>, blocks: seq<Block>)

  /** The global colour table a file announces, [] if it has none. */
  function GlobalOf(gif: Gif): seq<int> {
    if HasTable(gif.packed) then Colours(gif.table) else []
  }

  /** The array for the pixels of the screen, three cells each, has a 32-bit length. */
  predicate ScreenFits(width: nat, height: nat) { 3 * Area(width, height) < 0x8000_0000 }

  predicate GifOk(gif: Gif) {
    && |gif.version| == 3 && 0 < gif.width < 0x1_0000 && 0 < gif.height < 0x1_0000 && ScreenFits(gif.width, gif.height)
    && |gif.table| == (if HasTable(gif.packed) then 3 * TableSize(gif.packed) else 0)
    && AllDrawable(gif.blocks, GlobalOf(gif)) && AllOk(gif.blocks)
  }

  const SIGNATURE: seq<byte> := [0x47, 0x49, 0x46]

  function ScreenDescriptor(gif: Gif): seq<byte>
    requires GifOk(gif)
  {
    Short(gif.width) + (Short(gif.height) + [gif.packed, gif.background, gif.aspect])
  }

  function EncodeGif(gif: Gif): seq<byte>
    requires GifOk(gif)
  {
    (SIGNATURE + gif.version) + (ScreenDescriptor(gif) + (gif.table + (EncodeBlocks(gif.blocks) + [0x3b])))
  }

  /** Where the parts of a file are. */
  lemma GifParts(stream: seq<byte>, gif: Gif)
    requires GifOk(gif) && At(stream, 0, EncodeGif(gif))
    ensures 13 + |gif.table| + |EncodeBlocks(gif.blocks)| < |stream|
    ensures stream[0] == 0x47 && stream[1] == 0x49 && stream[2] == 0x46 && At(stream, 6, ScreenDescriptor(gif))
    ensures stream[13..13 + |gif.table|] == gif.table && At(stream, 13 + |gif.table|, EncodeBlocks(gif.blocks))
    ensures stream[13 + |gif.table| + |EncodeBlocks(gif.blocks)|] == 0x3b
  {
    var blocks, screen, head := EncodeBlocks(gif.blocks), ScreenDescriptor(gif), SIGNATURE + gif.version;
    HeadLengths(gif);
    FiveParts(stream, head, screen, gif.table, blocks, 0x3b);
    hide *;
    SignatureBytes(stream, head);
  }

  lemma BlocksAt(stream: seq<byte>, gif: Gif)
    requires GifOk(gif) && At(stream, 0, EncodeGif(gif))
    ensures AllDrawable(gif.blocks, GlobalOf(gif)) && AllOk(gif.blocks)
    ensures var pos := 13 + |gif.table|;
            var end := pos + |EncodeBlocks(gif.blocks)|;
            At(stream, pos, EncodeBlocks(gif.blocks))
            && end < |stream| && stream[end] == 0x3b && end + 1 == |EncodeGif(gif)|
  {
    GifParts(stream, gif);
    GifLength(gif);
    hide At, EncodeGif, EncodeBlocks, AllDrawable, AllOk, GlobalOf;
  }

  lemma HeadLengths(gif: Gif)
    requires GifOk(gif)
    ensures |SIGNATURE + gif.version| == 6 && |ScreenDescriptor(gif)| == 7
    ensures var h := SIGNATURE + gif.version; h[0] == 0x47 && h[1] == 0x49 && h[2] == 0x46
  {
  }

  lemma FiveParts(stream: seq<byte>, a: seq<byte>, b: seq<byte>, c: seq<byte>, d: seq<byte>, e: byte)
    requires At(stream, 0, a + (b + (c + (d + [e]))))
    ensures At(stream, 0, a) && At(stream, |a|, b) && At(stream, |a| + |b| + |c|, d)
    ensures var p := |a| + |b|; p + |c| <= |stream| && stream[p..p + |c|] == c
    ensures var q := |a| + |b| + |c| + |d|; q < |stream| && stream[q] == e
  {
    hide *;
    AtSplit(stream, 0, a, b + (c + (d + [e])));
    AtSplit(stream, |a|, b, c + (d + [e]));
    AtSplit(stream, |a| + |b|, c, d + [e]);
    AtSplit(stream, |a| + |b| + |c|, d, [e]);
    AtBytes(stream, |a| + |b|, c);
    AtByte(stream, |a| + |b| + |c| + |d|, e, []);
  }

  lemma AtBytes(stream: seq<byte>, pos: nat, s: seq<byte>)
    requires At(stream, pos, s)
    ensures pos + |s| <= |stream| && stream[pos..pos + |s|] == s
  {
  }

  lemma ScreenDescriptorBytes(stream: seq<byte>, gif: Gif)
    requires GifOk(gif) && At(stream, 6, ScreenDescriptor(gif))
    ensures 13 <= |stream|
    ensures gif.width == stream[6] as int + 0x100 * (stream[7] as int)
    ensures gif.height == stream[8] as int + 0x100 * (stream[9] as int)
    ensures stream[10] == gif.packed && stream[11] == gif.background && stream[12] == gif.aspect
  {
    var screen := [gif.packed, gif.background, gif.aspect];
    assert ScreenDescriptor(gif) == Short(gif.width) + (Short(gif.height) + screen);
    assert gif.width < 0x1_0000 && gif.height < 0x1_0000;
    hide GifOk;
    AtSplit(stream, 6, Short(gif.width), Short(gif.height) + screen);
    AtSplit(stream, 8, Short(gif.height), screen);
    AtShort(stream, 6, gif.width);
    AtShort(stream, 8, gif.height);
    ScreenBytes(stream, screen);
  }

  lemma SignatureBytes(stream: seq<byte>, head: seq<byte>)
    requires |head| == 6 && At(stream, 0, head)
    ensures stream[0] == head[0] && stream[1] == head[1] && stream[2] == head[2]
  {
    var s := stream[0..6];
    assert s[0] == stream[0] && s[1] == stream[1] && s[2] == stream[2];
  }

  lemma ScreenBytes(stream: seq<byte>, screen: seq<byte>)
    requires |screen| == 3 && At(stream, 10, screen)
    ensures stream[10] == screen[0] && stream[11] == screen[1] && stream[12] == screen[2]
  {
    var s := stream[10..13];
    assert s[0] == stream[10] && s[1] == stream[11] && s[2] == stream[12];
  }

  lemma GifScreen(gif: Gif)
    requires GifOk(gif)
    ensures ScreenFits(gif.width, gif.height)
  {
  }

  lemma GifLength(gif: Gif)
    requires GifOk(gif)
    ensures |EncodeGif(gif)| == 14 + |gif.table| + |EncodeBlocks(gif.blocks)|
  {
  }
}
