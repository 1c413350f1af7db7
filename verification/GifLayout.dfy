/** The bytes of each kind of block, place by place, as sections 17 to 26 of the GIF89a specification
    lay them out, and what the numbers in them mean for the frames. */
module GifLayout {
  import opened Bits
  import opened SubBlocks
  import opened LzwReference
  import opened LzwProgress
  import LzwTheorems
  import LzwEncoder
  import opened RowPlacement
  import opened RowCopy
  import opened GifGrammar
  import opened GifStandard

  /** The 16-bit number at p, low byte first. */
  predicate WordAt(s: seq<byte>, p: nat, n: nat) {
    p + 2 <= |s| && n == s[p] as int + 0x100 * (s[p + 1] as int)
  }

  lemma ShortIs(n: nat)
    requires n < 0x1_0000
    ensures |Short(n)| == 2 && WordAt(Short(n), 0, n)
  {
  }

  /** Section 20: separator, left, top, width, height, packed fields; then the colour table, the code
      size and the data. */
  lemma ImageLayout(b: Block)
    requires b.Image? && BlockOk(b)
    ensures var s, k := EncodeBlock(b), |b.table|;
            && |s| == 11 + k + |Encode(b.data)| && s[0] == 0x2c
            && WordAt(s, 1, b.ix) && WordAt(s, 3, b.iy) && WordAt(s, 5, b.iw) && WordAt(s, 7, b.ih)
            && s[9] == b.packed && s[10..10 + k] == b.table && s[10 + k] == b.codeSize && s[11 + k..] == Encode(b.data)
    ensures |b.table| == if BitAnd(b.packed, 0x80) != 0 then 3 * Pow2(BitAnd(b.packed, 7) + 1) else 0
  {
    PackedBits(b.packed);
    ImageHead(b);
    ImageTail(b);
    hide BitAnd, Pow2, Encode, EncodeBlock, Descriptor;
  }

  lemma ImageHead(b: Block)
    requires b.Image? && BlockOk(b)
    ensures var s := EncodeBlock(b);
            && |s| >= 10 && s[0] == 0x2c && s[9] == b.packed
            && WordAt(s, 1, b.ix) && WordAt(s, 3, b.iy) && WordAt(s, 5, b.iw) && WordAt(s, 7, b.ih)
  {
    var d, rest := Descriptor(b), b.table + ([b.codeSize] + Encode(b.data));
    assert EncodeBlock(b) == [0x2c] + (d + rest);
    assert |d| == 9 && d[8] == b.packed;
    DescriptorWords(b);
    hide Descriptor, Encode, BlockOk, EncodeBlock;
    assert forall i :: 0 <= i < 9 ==> EncodeBlock(b)[1 + i] == d[i];
  }

  lemma DescriptorWords(b: Block)
    requires b.Image? && BlockOk(b)
    ensures var d := Descriptor(b);
            |d| == 9 && WordAt(d, 0, b.ix) && WordAt(d, 2, b.iy) && WordAt(d, 4, b.iw) && WordAt(d, 6, b.ih)
  {
    assert b.ix < 0x1_0000 && b.iy < 0x1_0000 && b.iw < 0x1_0000 && b.ih < 0x1_0000;
    var x, y, w, h := Short(b.ix), Short(b.iy), Short(b.iw), Short(b.ih);
    ShortIs(b.ix);
    ShortIs(b.iy);
    ShortIs(b.iw);
    ShortIs(b.ih);
    assert Descriptor(b) == x + y + w + h + [b.packed];
    hide BlockOk, Short;
  }

  lemma FourPieces(head: seq<byte>, d: seq<byte>, t: seq<byte>, e: seq<byte>)
    ensures var s, p := head + (d + (t + e)), |head| + |d|;
            |s| == p + |t| + |e| && s[p..p + |t|] == t && s[p + |t|..] == e
  {
  }

  lemma CodeFirst(c: byte, e: seq<byte>)
    ensures ([c] + e)[0] == c && ([c] + e)[1..] == e
  {
  }

  lemma SliceOfSlice(s: seq<byte>, p: nat)
    requires p < |s|
    ensures s[p..][0] == s[p] && s[p..][1..] == s[p + 1..]
  {
  }

  lemma ImageTail(b: Block)
    requires b.Image? && BlockOk(b)
    ensures var s, k := EncodeBlock(b), |b.table|;
            && |s| == 11 + k + |Encode(b.data)| && s[10..10 + k] == b.table
            && s[10 + k] == b.codeSize && s[11 + k..] == Encode(b.data)
  {
    var s, d, data, k := EncodeBlock(b), Descriptor(b), Encode(b.data), |b.table|;
    assert s == [0x2c] + (d + (b.table + ([b.codeSize] + data)));
    assert |d| == 9;
    hide *;
    FourPieces([0x2c], d, b.table, [b.codeSize] + data);
    CodeFirst(b.codeSize, data);
    SliceOfSlice(s, 10 + k);
  }

  /** Section 23. */
  lemma ControlLayout(b: Block)
    requires b.GraphicControl? && BlockOk(b)
    ensures EncodeBlock(b) == [0x21, 0xf9, 4, b.packed, b.delay % 0x100, b.delay / 0x100, b.transparent, 0]
  {
    assert Short(b.delay) == [b.delay % 0x100, b.delay / 0x100];
    assert Body(b) == [0xf9] + ([4, b.packed] + (Short(b.delay) + [b.transparent, 0]));
  }

  /** Section 26. */
  lemma ApplicationLayout(b: Block)
    requires b.Application? && BlockOk(b)
    ensures EncodeBlock(b) == [0x21, 0xff, 11] + b.id + Encode(b.data)
  {
    hide Encode;
    assert Body(b) == [0xff] + ([11] + (b.id + Encode(b.data)));
  }

  /** The other extensions. */
  lemma OtherLayout(b: Block)
    requires b.OtherExtension? && BlockOk(b)
    ensures EncodeBlock(b) == [0x21, b.kind] + Encode(b.data)
  {
    hide Encode;
    assert Body(b) == [b.kind] + Encode(b.data);
  }

  /** Sections 17 and 18: signature, version, screen size and packed fields. */
  lemma FileHead(gif: Gif)
    requires GifOk(gif)
    ensures var s := EncodeGif(gif);
            && |s| >= 13 && s[0] == 'G' as int && s[1] == 'I' as int && s[2] == 'F' as int && s[3..6] == gif.version
            && WordAt(s, 6, gif.width) && WordAt(s, 8, gif.height) && s[10] == gif.packed
            && s[11] == gif.background && s[12] == gif.aspect
  {
    var head, screen := SIGNATURE + gif.version, ScreenDescriptor(gif);
    var rest := gif.table + (EncodeBlocks(gif.blocks) + [0x3b]);
    assert EncodeGif(gif) == head + (screen + rest);
    assert gif.width < 0x1_0000 && gif.height < 0x1_0000 && |gif.version| == 3;
    ShortIs(gif.width);
    ShortIs(gif.height);
    assert screen == Short(gif.width) + (Short(gif.height) + [gif.packed, gif.background, gif.aspect]);
    hide GifOk, Short, EncodeGif, EncodeBlocks, ScreenDescriptor;
    assert |head| == 6 && |screen| == 7;
    assert forall i :: 0 <= i < 7 ==> EncodeGif(gif)[6 + i] == screen[i];
  }

  /** Sections 19 and 27: global colour table, blocks, trailer. */
  lemma FileTail(gif: Gif)
    requires GifOk(gif)
    ensures var s, k, n := EncodeGif(gif), |gif.table|, |EncodeBlocks(gif.blocks)|;
            && |s| == 14 + k + n && s[13..13 + k] == gif.table
            && s[13 + k..13 + k + n] == EncodeBlocks(gif.blocks) && s[13 + k + n] == 0x3b
    ensures |gif.table| == if BitAnd(gif.packed, 0x80) != 0 then 3 * Pow2(BitAnd(gif.packed, 7) + 1) else 0
  {
    PackedBits(gif.packed);
    var s, head := EncodeGif(gif), SIGNATURE + gif.version;
    var screen, blocks := ScreenDescriptor(gif), EncodeBlocks(gif.blocks);
    var k := |gif.table|;
    HeadLengths(gif);
    assert s == head + (screen + (gif.table + (blocks + [0x3b])));
    hide *;
    FourPieces(head, screen, gif.table, blocks + [0x3b]);
    LastByte(s, 13 + k, blocks, 0x3b);
  }

  lemma LastByte(s: seq<byte>, p: nat, t: seq<byte>, c: byte)
    requires p <= |s| && s[p..] == t + [c]
    ensures |s| == p + |t| + 1 && s[p..p + |t|] == t && s[p + |t|] == c
  {
    assert s[p..][..|t|] == t && s[p..][|t|] == c;
  }

  /** The name of the application block that sets the loop count. */
  lemma NetscapeName()
    ensures |NETSCAPE| == |"NETSCAPE2.0"| && forall i :: 0 <= i < |NETSCAPE| ==> NETSCAPE[i] == "NETSCAPE2.0"[i] as int
  {
  }

  /** Section 19: three bytes for each colour, red, green and blue. */
  lemma TableColour(bytes: seq<byte>, i: nat)
    requires i < 256
    ensures |Colours(bytes)| == 256
    ensures var c := Colours(bytes)[i];
            if 3 * i + 2 < |bytes| then
              c < 0 && (c + 0x100_0000) / 0x1_0000 == bytes[3 * i] &&
              (c + 0x100_0000) / 0x100 % 0x100 == bytes[3 * i + 1] && c % 0x100 == bytes[3 * i + 2]
            else c == 0
  {
    if 3 * i + 2 < |bytes| {
      MixesParts(Colours(bytes)[i], bytes[3 * i], bytes[3 * i + 1], bytes[3 * i + 2]);
    }
    hide Mixes;
  }

  /** An image right after a graphic control: its frame has the delay of the control, and it is drawn
      in its colours but for the control's index, which is transparent exactly when the lowest bit
      of the packed byte is set. */
  lemma ImageAfterControl(control: Block, image: Block, c: Control, global: seq<int>, width: nat, height: nat,
                          frames: seq<Frame>)
    requires control.GraphicControl? && image.Image? && AllDrawable([control, image], global)
    requires FramesFor(frames, [control, image], c, global, width, height)
    ensures Drawable(image, global) && BlockOk(image) && (BitAnd(image.packed, 0x80) == 0 ==> |global| == 256)
    ensures var t := if BitAnd(image.packed, 0x80) != 0 then Colours(image.table) else global;
            var colours := if BitAnd(control.packed, 1) != 0 then t[control.transparent := 0] else t;
            var g := Geometry(image.ix, image.iy, image.iw, image.ih, BitAnd(image.packed, 0x40) != 0, width, height);
            |t| == 256 && WellSized(Picture(g, PixelsOf(image), colours))
            && |frames| == 1 && frames[0].delay == 10 * control.delay
            && ScreenDrawn(Picture(g, PixelsOf(image), colours), frames[0].before, frames[0].after, image.ih)
  {
    var blocks, d := [control, image], ControlAfter(c, control);
    assert blocks[1..] == [image] && [image][1..] == [];
    assert image in blocks;
    PackedBits(control.packed);
    PackedBits(image.packed);
    PictureParts(image, d, global, width, height);
    hide BitAnd, Shr, Drawable, BlockOk, ScreenDrawn, WellSized, PixelsOf, Colours, PictureOf;
    OneFrame(frames, image, d, global, width, height);
  }

  lemma OneFrame(frames: seq<Frame>, image: Block, c: Control, global: seq<int>, width: nat, height: nat)
    requires image.Image? && Drawable(image, global) && AllDrawable([image], global)
    requires FramesFor(frames, [image], c, global, width, height)
    ensures |frames| == 1 && frames[0].delay == c.delay
    ensures ScreenDrawn(PictureOf(image, c, global, width, height), frames[0].before, frames[0].after, image.ih)
  {
    assert [image][1..] == [];
    hide Drawable, ScreenDrawn, PictureOf;
  }

  /** An image whose data are the compressed pixels, cut into sub-blocks in any way, is acceptable
      and has these pixels, for this decoder and by the specification. */
  lemma CompressedImage(b: Block, pixels: seq<byte>)
    requires b.Image? && 2 <= b.codeSize <= 11 && LzwEncoder.Pixels(b.codeSize, pixels)
    requires Flatten(b.data) == LzwEncoder.BytesOf(LzwEncoder.Encode(b.codeSize, pixels))
    requires |pixels| == Area(b.iw, b.ih)
    ensures DataSuffices(b) && PixelsOf(b) == pixels && SpecifiedPixels(b) == pixels
  {
    LzwEncoder.DecodeUndoesEncode(b.codeSize, pixels, false);
    LzwEncoder.DecodeUndoesEncode(b.codeSize, pixels, true);
    hide Decode, LzwEncoder.Pixels, LzwEncoder.BytesOf, LzwEncoder.Encode;
  }
}
