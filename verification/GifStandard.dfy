/** What the GIF89a specification prescribes for a list of blocks, and when the decoder does it: the
    graphic control of section 23, which holds for one image only, the LZW decoder of Appendix F,
    which goes on with a full table, and the line order of Appendix E. */
module GifStandard {
  import opened Bits
  import opened SubBlocks
  import opened LzwReference
  import opened LzwProgress
  import LzwTheorems
  import opened RowPlacement
  import opened RowCopy
  import opened GifGrammar

  // ------------------------------------------------------------------ the scope of a graphic control

  const NO_CONTROL := Control(0, false, 0, 0)

  /** The label of a plain text extension, the other block that renders something. */
  const PLAIN_TEXT: byte := 0x01

  predicate Renders(b: Block) { b.Image? || (b.OtherExtension? && b.kind == PLAIN_TEXT) }

  /** A graphic control holds for the next block that renders something, and for no other. */
  function ScopedAfter(c: Control, b: Block): Control {
    if Renders(b) then NO_CONTROL else ControlAfter(c, b)
  }

  /** What an image has of a control: its delay, and the index of its transparent colour or -1. */
  function Effect(c: Control): (nat, int) { (c.delay, if c.transparency then c.transIndex else -1) }

  predicate Visible(c: Control) { c.delay != 0 || c.transparency }

  /** What each image has when controls are kept, as the decoder keeps them. */
  function KeptEffects(blocks: seq<Block>, c: Control): seq<(nat, int)>
    decreases |blocks|
  {
    if blocks == [] then []
    else (if blocks[0].Image? then [Effect(c)] else []) + KeptEffects(blocks[1..], ControlAfter(c, blocks[0]))
  }

  /** What each image has by section 23. */
  function ScopedEffects(blocks: seq<Block>, c: Control): seq<(nat, int)>
    decreases |blocks|
  {
    if blocks == [] then []
    else (if blocks[0].Image? then [Effect(c)] else []) + ScopedEffects(blocks[1..], ScopedAfter(c, blocks[0]))
  }

  /** While a control with a delay or a transparent colour is in force (`visible`) that a rendering
      block has `used` since, no image comes before the next control. */
  predicate OwnControls(blocks: seq<Block>, visible: bool, used: bool)
    decreases |blocks|
  {
    if blocks == [] then true
    else
      match blocks[0]
      case GraphicControl(packed, delay, _) => OwnControls(blocks[1..], delay != 0 || packed % 2 == 1, false)
      case Image(_, _, _, _, _, _, _, _) => !(visible && used) && OwnControls(blocks[1..], visible, true)
      case _ => OwnControls(blocks[1..], visible, used || Renders(blocks[0]))
  }

  lemma SameHeads(some: bool, a: (nat, int), x: seq<(nat, int)>, b: (nat, int), y: seq<(nat, int)>)
    ensures (if some then [a] else []) + x == (if some then [b] else []) + y <==> (some ==> a == b) && x == y
  {
    if some {
      assert ([a] + x)[1..] == x && ([b] + y)[1..] == y;
      assert ([a] + x)[0] == a && ([b] + y)[0] == b;
    } else {
      assert [] + x == x && [] + y == y;
    }
  }

  lemma EffectOfNone(c: Control)
    ensures Effect(c) == Effect(NO_CONTROL) <==> !Visible(c)
  {
  }

  /** The effects, from a kept control and a scoped one that has been used up or not. */
  lemma {:induction false} EffectsIff(blocks: seq<Block>, kept: Control, scoped: Control, used: bool)
    requires Effect(scoped) == Effect(if used then NO_CONTROL else kept)
    ensures KeptEffects(blocks, kept) == ScopedEffects(blocks, scoped) <==> OwnControls(blocks, Visible(kept), used)
    decreases |blocks|
  {
    if blocks != [] {
      var b, rest := blocks[0], blocks[1..];
      EffectOfNone(kept);
      var used' := !b.GraphicControl? && (used || Renders(b));
      EffectsIff(rest, ControlAfter(kept, b), ScopedAfter(scoped, b), used');
      hide Effect;
      SameHeads(b.Image?, Effect(kept), KeptEffects(rest, ControlAfter(kept, b)),
                Effect(scoped), ScopedEffects(rest, ScopedAfter(scoped, b)));
    }
  }

  /** Every image has the delay and the transparent colour that section 23 gives it exactly when no
      image follows another rendering block, without a graphic control between them, while a
      control with a delay or a transparent colour is in force. */
  lemma ControlScopeIff(blocks: seq<Block>, c: Control)
    ensures KeptEffects(blocks, c) == ScopedEffects(blocks, c) <==> OwnControls(blocks, Visible(c), false)
  {
    EffectsIff(blocks, c, c, false);
  }

  // ------------------------------------------------------------------ the frames that are prescribed

  /** The pixels that the specification's decoder delivers. */
  function SpecifiedPixels(b: Block): seq<byte>
    requires b.Image? && 2 <= b.codeSize <= 11
  {
    EmptyTableFits(b.codeSize);
    Padded(Decode(b.codeSize, Flatten(b.data), 0, EMPTY_TABLE, true).out, Area(b.iw, b.ih))
  }

  function SpecifiedPicture(b: Block, c: Control, global: seq<int>, width: nat, height: nat): (p: Picture)
    requires b.Image? && Drawable(b, global)
    ensures WellSized(p)
  {
    PictureOf(b, c, global, width, height).(indices := SpecifiedPixels(b))
  }

  /** The frame that the specification prescribes for an image under control c. */
  predicate Prescribed(f: Frame, b: Block, c: Control, global: seq<int>, width: nat, height: nat)
    requires b.Image? && Drawable(b, global)
  {
    f.delay == c.delay && ScreenPlaced(SpecifiedPicture(b, c, global, width, height), f.before, f.after)
  }

  predicate PrescribedFrames(frames: seq<Frame>, blocks: seq<Block>, c: Control, global: seq<int>, width: nat,
                             height: nat)
    requires AllDrawable(blocks, global)
    decreases |blocks|
  {
    if blocks == [] then frames == []
    else if blocks[0].Image? then
      frames != [] && Prescribed(frames[0], blocks[0], c, global, width, height) &&
      PrescribedFrames(frames[1..], blocks[1..], ScopedAfter(c, blocks[0]), global, width, height)
    else PrescribedFrames(frames, blocks[1..], ScopedAfter(c, blocks[0]), global, width, height)
  }

  /** The lines of the image are placed in the order of Appendix E, and no data code meets a full
      table inside it. */
  predicate Conforms(b: Block) {
    b.Image? && 2 <= b.codeSize <= 11 ==> !(Interlaced(b.packed) && TooLow(b.ih)) && FitsTable(b)
  }

  predicate FitsTable(b: Block)
    requires b.Image? && 2 <= b.codeSize <= 11
  {
    LzwTheorems.RunStart(b.codeSize);
    !LzwTheorems.Outgrows(b.codeSize, Flatten(b.data), 0, LzwTheorems.NoLengths(Area(b.iw, b.ih)))
  }

  predicate AllConform(blocks: seq<Block>) { forall b <- blocks :: Conforms(b) }

  lemma ConformingPixels(b: Block)
    requires b.Image? && BlockOk(b) && Conforms(b)
    ensures PixelsOf(b) == SpecifiedPixels(b) && !(Interlaced(b.packed) && TooLow(b.ih))
  {
    assert 2 <= b.codeSize <= 11;
    EmptyTableFits(b.codeSize);
    LzwTheorems.RunStart(b.codeSize);
    hide Decode, Padded, LzwTheorems.Outgrows, BlockOk;
    LzwTheorems.PixelsWithinTable(b.codeSize, Flatten(b.data), Area(b.iw, b.ih));
  }

  lemma SameColours(b: Block, kept: Control, scoped: Control, global: seq<int>)
    requires b.Image? && Drawable(b, global) && Effect(kept) == Effect(scoped)
    ensures BlockOk(b) && (HasTable(b.packed) || |global| == 256)
    ensures ActiveColours(b, kept, global) == ActiveColours(b, scoped, global)
  {
  }

  /** A conforming image is shown as prescribed, when the control has the effect that it should. */
  lemma ShownAsPrescribed(f: Frame, b: Block, kept: Control, scoped: Control, global: seq<int>, width: nat, height: nat)
    requires b.Image? && Drawable(b, global) && Conforms(b) && Effect(kept) == Effect(scoped)
    ensures Shows(f, b, kept, global, width, height) <==> Prescribed(f, b, scoped, global, width, height)
  {
    SameColours(b, kept, scoped, global);
    ConformingPixels(b);
    hide Drawable, BlockOk, Conforms, PixelsOf, SpecifiedPixels, ActiveColours, ScreenDrawn, ScreenPlaced;
    var p := PictureOf(b, kept, global, width, height);
    assert p == SpecifiedPicture(b, scoped, global, width, height);
    DrawnIsPlaced(p, f.before, f.after);
  }

  lemma DrawableParts(blocks: seq<Block>, global: seq<int>)
    requires AllDrawable(blocks, global) && blocks != []
    ensures Drawable(blocks[0], global) && AllDrawable(blocks[1..], global)
    ensures AllConform(blocks) ==> Conforms(blocks[0]) && AllConform(blocks[1..])
  {
    hide Drawable, Conforms;
  }

  /** The frames of conforming images are those prescribed, when the controls have the effects that
      they should. */
  lemma {:induction false} FramesPrescribed(frames: seq<Frame>, blocks: seq<Block>, kept: Control, scoped: Control,
                                            global: seq<int>, width: nat, height: nat)
    requires AllDrawable(blocks, global) && AllConform(blocks)
    requires KeptEffects(blocks, kept) == ScopedEffects(blocks, scoped)
    ensures FramesFor(frames, blocks, kept, global, width, height) <==>
            PrescribedFrames(frames, blocks, scoped, global, width, height)
    decreases |blocks|
  {
    hide AllDrawable, AllConform, Shows, Prescribed, Drawable, Conforms, Effect;
    if blocks != [] {
      var b, rest := blocks[0], blocks[1..];
      DrawableParts(blocks, global);
      SameHeads(b.Image?, Effect(kept), KeptEffects(rest, ControlAfter(kept, b)),
                Effect(scoped), ScopedEffects(rest, ScopedAfter(scoped, b)));
      if b.Image? {
        ImageKeeps(kept, b);
        if frames != [] {
          ShownAsPrescribed(frames[0], b, kept, scoped, global, width, height);
          FramesPrescribed(frames[1..], rest, kept, ScopedAfter(scoped, b), global, width, height);
        }
      } else {
        FramesPrescribed(frames, rest, ControlAfter(kept, b), ScopedAfter(scoped, b), global, width, height);
      }
    }
  }

  lemma ImageKeeps(c: Control, b: Block)
    requires b.Image?
    ensures ControlAfter(c, b) == c
  {
  }

  /** The frames that the decoder makes of conforming images are those that the specification
      prescribes, when every image has its own control or needs none. */
  lemma FramesOfSpecification(frames: seq<Frame>, blocks: seq<Block>, c: Control, global: seq<int>, width: nat,
                              height: nat)
    requires AllDrawable(blocks, global) && AllConform(blocks) && OwnControls(blocks, Visible(c), false)
    ensures FramesFor(frames, blocks, c, global, width, height) <==>
        PrescribedFrames(frames, blocks, c, global, width, height)
  {
    hide *;
    ControlScopeIff(blocks, c);
    FramesPrescribed(frames, blocks, c, c, global, width, height);
  }

  /** On blocks that conform and whose images need no other control than their own, the frames are
      those that the specification prescribes. */
  predicate AsSpecified(frames: seq<Frame>, blocks: seq<Block>, c: Control, global: seq<int>, width: nat, height: nat)
    requires AllDrawable(blocks, global)
  {
    AllConform(blocks) && OwnControls(blocks, Visible(c), false) ==>
      PrescribedFrames(frames, blocks, c, global, width, height)
  }

  lemma DecodedAsSpecified(frames: seq<Frame>, blocks: seq<Block>, c: Control, global: seq<int>, width: nat,
                           height: nat)
    requires AllDrawable(blocks, global) && FramesFor(frames, blocks, c, global, width, height)
    ensures AsSpecified(frames, blocks, c, global, width, height)
  {
    hide AllDrawable, FramesFor, PrescribedFrames, AllConform, OwnControls;
    if AllConform(blocks) && OwnControls(blocks, Visible(c), false) {
      FramesOfSpecification(frames, blocks, c, global, width, height);
    }
  }

  lemma KeptStep(b: Block, rest: seq<Block>, c: Control)
    ensures KeptEffects([b] + rest, c) == (if b.Image? then [Effect(c)] else []) + KeptEffects(rest, ControlAfter(c, b))
  {
    assert ([b] + rest)[1..] == rest;
  }

  lemma ScopedStep(b: Block, rest: seq<Block>, c: Control)
    ensures ScopedEffects([b] + rest, c) ==
        (if b.Image? then [Effect(c)] else []) + ScopedEffects(rest, ScopedAfter(c, b))
  {
    assert ([b] + rest)[1..] == rest;
  }

  lemma NoEffects(c: Control)
    ensures KeptEffects([], c) == [] && ScopedEffects([], c) == []
  {
  }

  lemma EffectsOfThree(control: Block, one: Block, two: Block, c: Control)
    requires control.GraphicControl? && one.Image? && two.Image?
    ensures var blocks, e := [control, one, two], Effect(ControlAfter(c, control));
            KeptEffects(blocks, c) == [e, e] && ScopedEffects(blocks, c) == [e, Effect(NO_CONTROL)]
  {
    var d := ControlAfter(c, control);
    ImageKeeps(d, one);
    ImageKeeps(d, two);
    assert !Renders(control) && Renders(one) && Renders(two);
    assert ScopedAfter(c, control) == d && ScopedAfter(d, one) == NO_CONTROL;
    hide *;
    assert [control, one, two] == [control] + ([one] + ([two] + []));
    KeptStep(control, [one] + ([two] + []), c);
    KeptStep(one, [two] + [], d);
    KeptStep(two, [], d);
    ScopedStep(control, [one] + ([two] + []), c);
    ScopedStep(one, [two] + [], d);
    ScopedStep(two, [], NO_CONTROL);
    NoEffects(d);
    NoEffects(ScopedAfter(NO_CONTROL, two));
  }

  lemma {:induction false} DelaysKept(frames: seq<Frame>, blocks: seq<Block>, c: Control, global: seq<int>,
                                      width: nat, height: nat)
    requires AllDrawable(blocks, global) && FramesFor(frames, blocks, c, global, width, height)
    ensures |frames| == |KeptEffects(blocks, c)|
    ensures forall i :: 0 <= i < |frames| ==> frames[i].delay == KeptEffects(blocks, c)[i].0
    decreases |blocks|
  {
    hide AllDrawable, Drawable, ControlAfter, ScreenDrawn, PictureOf;
    if blocks != [] {
      DrawableParts(blocks, global);
      if blocks[0].Image? {
        ImageKeeps(c, blocks[0]);
        DelaysKept(frames[1..], blocks[1..], c, global, width, height);
      } else {
        DelaysKept(frames, blocks[1..], ControlAfter(c, blocks[0]), global, width, height);
      }
    }
  }

  lemma {:induction false} DelaysPrescribed(frames: seq<Frame>, blocks: seq<Block>, c: Control,
                                            global: seq<int>, width: nat, height: nat)
    requires AllDrawable(blocks, global) && PrescribedFrames(frames, blocks, c, global, width, height)
    ensures |frames| == |ScopedEffects(blocks, c)|
    ensures forall i :: 0 <= i < |frames| ==> frames[i].delay == ScopedEffects(blocks, c)[i].0
    decreases |blocks|
  {
    hide AllDrawable, Drawable, ScopedAfter, ScreenPlaced, SpecifiedPicture;
    if blocks != [] {
      DrawableParts(blocks, global);
      var d := ScopedAfter(c, blocks[0]);
      if blocks[0].Image? {
        DelaysPrescribed(frames[1..], blocks[1..], d, global, width, height);
      } else {
        DelaysPrescribed(frames, blocks[1..], d, global, width, height);
      }
    }
  }

  /** A control and two images: the second image keeps the control, which section 23 had ended. */
  lemma ControlOutlivesItsImage(control: Block, one: Block, two: Block, c: Control)
    requires control.GraphicControl? && one.Image? && two.Image? && (control.delay > 0 || control.packed % 2 == 1)
    ensures var blocks, e := [control, one, two], Effect(ControlAfter(c, control));
            KeptEffects(blocks, c) == [e, e] && ScopedEffects(blocks, c) == [e, Effect(NO_CONTROL)] &&
            e != Effect(NO_CONTROL) && !OwnControls(blocks, Visible(c), false)
  {
    EffectsOfThree(control, one, two, c);
    EffectOfNone(ControlAfter(c, control));
    hide OwnControls, KeptEffects, ScopedEffects, Effect;
    ControlScopeIff([control, one, two], c);
    assert [Effect(ControlAfter(c, control)), Effect(NO_CONTROL)][1] == Effect(NO_CONTROL);
  }

  /** With a delay, no frames are both what the decoder makes of them and what is prescribed. */
  lemma DelayOutlivesItsImage(control: Block, one: Block, two: Block, c: Control, global: seq<int>,
                              width: nat, height: nat, frames: seq<Frame>)
    requires control.GraphicControl? && one.Image? && two.Image? && control.delay > 0
    requires AllDrawable([control, one, two], global)
    ensures FramesFor(frames, [control, one, two], c, global, width, height) ==>
            |frames| == 2 && frames[1].delay == 10 * control.delay
            && !PrescribedFrames(frames, [control, one, two], c, global, width, height)
  {
    var blocks, d := [control, one, two], ControlAfter(c, control);
    EffectsOfThree(control, one, two, c);
    assert Effect(d).0 == 10 * control.delay && Effect(NO_CONTROL).0 == 0;
    hide AllDrawable, FramesFor, PrescribedFrames, KeptEffects, ScopedEffects, Effect, ControlAfter;
    if FramesFor(frames, blocks, c, global, width, height) {
      DelaysKept(frames, blocks, c, global, width, height);
      assert frames[1].delay == [Effect(d), Effect(d)][1].0;
      if PrescribedFrames(frames, blocks, c, global, width, height) {
        DelaysPrescribed(frames, blocks, c, global, width, height);
        assert false;
      }
    }
  }
}
