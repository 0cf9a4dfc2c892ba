/** The incremental frame renderer (emulator.rs, `Machine::render_rgba` and its
    neighbours). Stamps decide when a retained image may be shown again; the
    specification is composing the guest's current screen from scratch. */
module FrameRenderer {
  import opened Base
  import opened CursorDrawing
  import opened CursorBackups
  import Indexed = IndexedFrames

  datatype Mode = Mode(base: nat, rowBytes: nat, width: nat, height: nat, depth: nat)
  type Clut = seq<nat>
  type Palette = seq<Pixel>
  type Lines = seq<string>
  datatype Image = Image(width: nat, height: nat, pixels: seq<Pixel>)

  /** What the renderer reads from the guest at one moment. */
  datatype Scene<S> = Scene(screen: S, mode: Mode, clut: Clut, mouse: Point, cursor: Option<Cursor>)

  /** The display routines the renderer calls. `S` is the guest's visible memory. */
  datatype Display<!S> = Display(
    epoch: S -> Option<nat>,
    outline: S -> bool,
    palette: Clut -> Palette,
    decode: (S, Mode, Palette) -> seq<Pixel>,
    rule: Rule,
    debug: (seq<Pixel>, nat, nat, Lines) -> seq<Pixel>,
    expand: (S, seq<Pixel>, seq<Pixel>, nat) -> Option<Image>,
    pack: (S, Mode, Clut) -> Indexed.PackedScreen,
    detail: (S, seq<Option<Pixel>>, nat) -> Option<Image>)
  {
    function Epoch(screen: S): Option<nat> { epoch(screen) }
    function Outline(screen: S): bool { outline(screen) }
    function Colours(clut: Clut): Palette { palette(clut) }
    function Decode(screen: S, mode: Mode, colours: Palette): seq<Pixel> { decode(screen, mode, colours) }
    function Debug(pixels: seq<Pixel>, width: nat, height: nat, lines: Lines): seq<Pixel> {
      debug(pixels, width, height, lines)
    }
    function Expand(screen: S, guest: seq<Pixel>, overlaid: seq<Pixel>, scale: nat): Option<Image> {
      expand(screen, guest, overlaid, scale)
    }
    /** The packed screen memory an indexed packet carries. */
    function Pack(screen: S, mode: Mode, clut: Clut): Indexed.PackedScreen { pack(screen, mode, clut) }
    /** What the presenter shows of a compact packet with these overlay pixels, if one is exported. */
    function Detail(screen: S, overlays: seq<Option<Pixel>>, scale: nat): Option<Image> {
      detail(screen, overlays, scale)
    }
  }

  /** The overlay pixels of a compact packet: those that differ from the guest's. */
  function Differences(guest: seq<Pixel>, overlaid: seq<Pixel>): (overlays: seq<Option<Pixel>>)
    requires |guest| == |overlaid|
    ensures |overlays| == |guest|
  {
    seq(|guest|, i requires 0 <= i < |guest| => if guest[i] != overlaid[i] then Some(overlaid[i]) else None)
  }

  /** Decoding fills the logical screen, and equal visible-image stamps mean the guest
      surface decodes and expands to the same pixels. */
  ghost predicate Lawful<S(!new)>(d: Display<S>) {
    && (forall s, m, p :: |d.Decode(s, m, p)| == m.width * m.height)
    && (forall s, t, m, p :: d.Epoch(s).Some? && d.Epoch(s) == d.Epoch(t) ==> d.Decode(s, m, p) == d.Decode(t, m, p))
    && (forall s, t, g, o, k :: d.Epoch(s).Some? && d.Epoch(s) == d.Epoch(t) ==>
          d.Expand(s, g, o, k) == d.Expand(t, g, o, k))
  }

  /** A packed screen has the mode it was captured in, and one as long as its mode demands decodes to
      the logical screen; an exported compact packet is shown as the outline surface expands. */
  ghost predicate Exporting<S(!new)>(d: Display<S>) {
    && (forall s, m, c ::
          var p := d.Pack(s, m, c);
          && p.stride == m.rowBytes && p.width == m.width && p.height == m.height && p.depth == m.depth
          && |p.palette| == 256
          && (p.Valid() ==> Indexed.Decoded(p) == d.Decode(s, m, d.Colours(c))))
    && (forall s, g, o, k ::
          |g| == |o| && d.Detail(s, Differences(g, o), k).Some? ==>
            d.Expand(s, g, o, k) == d.Detail(s, Differences(g, o), k))
  }

  function Decoded<S>(d: Display<S>, scene: Scene<S>): seq<Pixel> {
    d.Decode(scene.screen, scene.mode, d.Colours(scene.clut))
  }

  /** The logical screen with its cursor and debug overlays. */
  function Overlaid<S>(d: Display<S>, scene: Scene<S>, lines: Option<Lines>): seq<Pixel> {
    var base := Decoded(d, scene);
    var pointed :=
      if scene.cursor.Some? then Draw(d.rule, base, scene.mode.width, scene.cursor.value, scene.mouse) else base;
    if lines.Some? then d.Debug(pointed, scene.mode.width, scene.mode.height, lines.value) else pointed
  }

  /** The panel goes over everything else: with lines, the image is the panel drawn over the image without
      them, and that is the screen with the cursor drawn on it. */
  lemma PanelOverCursor<S>(d: Display<S>, scene: Scene<S>, scale: nat, lines: Lines)
    requires !d.Outline(scene.screen)
    ensures var plain, w, h := Compose(d, scene, scale, None).pixels, scene.mode.width, scene.mode.height;
            && Compose(d, scene, scale, Some(lines)) == Image(w, h, d.Debug(plain, w, h, lines))
            && plain == (if scene.cursor.None? then d.Decode(scene.screen, scene.mode, d.Colours(scene.clut))
                         else Draw(d.rule, d.Decode(scene.screen, scene.mode, d.Colours(scene.clut)), w,
                                   scene.cursor.value, scene.mouse))
  {
  }

  /** With outline detail the surface expands the screen and the same overlays, and when it refuses them the
      overlaid screen is shown as it is. */
  lemma ExpandedOverlays<S>(d: Display<S>, scene: Scene<S>, scale: nat, lines: Option<Lines>, plain: Scene<S>)
    requires d.Outline(scene.screen) && plain == scene.(screen := plain.screen) && !d.Outline(plain.screen)
    requires d.Decode(plain.screen, scene.mode, d.Colours(scene.clut))
          == d.Decode(scene.screen, scene.mode, d.Colours(scene.clut))
    ensures var decoded, shown := d.Decode(scene.screen, scene.mode, d.Colours(scene.clut)),
                                  Compose(d, plain, scale, lines);
            var expanded := d.Expand(scene.screen, decoded, shown.pixels, scale);
            Compose(d, scene, scale, lines) == if expanded.Some? then expanded.value else shown
  {
  }

  function Expansion<S>(d: Display<S>, scene: Scene<S>, scale: nat, lines: Option<Lines>): Option<Image> {
    d.Expand(scene.screen, Decoded(d, scene), Overlaid(d, scene, lines), scale)
  }

  /** The specification: one image composed from nothing but the current inputs. */
  function Compose<S>(d: Display<S>, scene: Scene<S>, scale: nat, lines: Option<Lines>): Image {
    var logical := Image(scene.mode.width, scene.mode.height, Overlaid(d, scene, lines));
    if !d.Outline(scene.screen) then logical
    else match Expansion(d, scene, scale, lines)
         case Some(image) => image
         case None => logical
  }

  /** The outline surface accepts this frame whenever outline detail is visible. */
  predicate Expands<S>(d: Display<S>, scene: Scene<S>, scale: nat) {
    d.Outline(scene.screen) ==> Expansion(d, scene, scale, None).Some?
  }

  /** Scenes that agree on everything the renderer compares. */
  ghost predicate SameInputs<S>(d: Display<S>, a: Scene<S>, b: Scene<S>) {
    && d.Epoch(a.screen).Some? && d.Epoch(a.screen) == d.Epoch(b.screen)
    && d.Outline(a.screen) == d.Outline(b.screen)
    && a.mode == b.mode && a.clut == b.clut && a.cursor == b.cursor
    && (a.cursor.Some? ==> a.mouse == b.mouse)
  }

  /** Equal stamps make equal images, so a retained image may stand in for a new one. */
  lemma SameInputsSameImage<S(!new)>(d: Display<S>, a: Scene<S>, b: Scene<S>, scale: nat)
    requires Lawful(d) && SameInputs(d, a, b)
    ensures Compose(d, a, scale, None) == Compose(d, b, scale, None)
    ensures Expands(d, a, scale) <==> Expands(d, b, scale)
  {
    assert Decoded(d, a) == Decoded(d, b);
    assert Overlaid(d, a, None) == Overlaid(d, b, None);
  }

  /** What the renderer remembers about the image shown last. */
  datatype Stamps = Stamps(epoch: Option<nat>, mode: Option<Mode>, scale: nat, outline: bool,
                           cursor: Option<Cursor>, mouse: Point)

  function StampsOf<S>(d: Display<S>, scene: Scene<S>, scale: nat): Stamps {
    Stamps(d.Epoch(scene.screen), Some(scene.mode), scale, d.Outline(scene.screen), scene.cursor, scene.mouse)
  }

  /** The comparison that decides whether a scene is the one shown last. */
  predicate Matches<S>(d: Display<S>, rendered: Stamps, scene: Scene<S>, scale: nat) {
    && d.Epoch(scene.screen).Some?
    && rendered.epoch == d.Epoch(scene.screen)
    && rendered.mode == Some(scene.mode)
    && rendered.scale == scale
    && rendered.outline == d.Outline(scene.screen)
    && (scene.cursor.None? || rendered.mouse == scene.mouse)
    && rendered.cursor == scene.cursor
  }

  /** The stamps belong to the scene shown last, and that scene's image was delivered. */
  ghost predicate Truthful<S>(d: Display<S>, rendered: Stamps, clut: Option<Clut>, shown: Option<Scene<S>>,
                              delivered: Image) {
    rendered.epoch.Some? ==>
      && shown.Some?
      && rendered == StampsOf(d, shown.value, rendered.scale)
      && clut == Some(shown.value.clut)
      && (Expands(d, shown.value, rendered.scale) ==> delivered == Compose(d, shown.value, rendered.scale, None))
  }

  /** Truthful stamps match a scene exactly when it agrees with the scene shown on all that is compared. */
  lemma MatchesExactly<S>(d: Display<S>, rendered: Stamps, clut: Option<Clut>, shown: Option<Scene<S>>,
                          delivered: Image, scene: Scene<S>, scale: nat)
    requires Truthful(d, rendered, clut, shown, delivered)
    ensures Matches(d, rendered, scene, scale) && clut == Some(scene.clut) <==>
            rendered.epoch.Some? && rendered.scale == scale && SameInputs(d, shown.value, scene)
  {
  }

  lemma FreshStampsAreTruthful<S>(d: Display<S>, scene: Scene<S>, scale: nat)
    ensures Truthful(d, StampsOf(d, scene, scale), Some(scene.clut), Some(scene), Compose(d, scene, scale, None))
  {
  }

  /** The buffer an unchanged scene is shown from holds the scene's image. */
  ghost predicate Retains<S>(d: Display<S>, scene: Scene<S>, scale: nat, inFrame: bool,
                             width: nat, height: nat, presented: seq<Pixel>, overlay: seq<Pixel>, frame: seq<Pixel>)
  {
    var image := Compose(d, scene, scale, None);
    if d.Outline(scene.screen) then Expands(d, scene, scale) ==> Image(width, height, presented) == image
    else if scene.cursor.Some? && !inFrame then Image(width, height, overlay) == image
    else Image(width, height, frame) == image
  }

  /** The retained frame is the decoding its own stamp names. */
  ghost predicate Current<S>(d: Display<S>, epoch: Option<nat>, mode: Option<Mode>, clut: Option<Clut>,
                             screen: Option<S>, clean: seq<Pixel>)
  {
    epoch.Some? ==>
      && screen.Some? && mode.Some? && clut.Some?
      && d.Epoch(screen.value) == epoch
      && clean == d.Decode(screen.value, mode.value, d.Colours(clut.value))
  }

  /** A scene that matches truthful stamps has the image that was delivered. */
  lemma MatchIsShown<S(!new)>(d: Display<S>, rendered: Stamps, clut: Option<Clut>, shown: Option<Scene<S>>,
                              delivered: Image, scene: Scene<S>, scale: nat)
    requires Lawful(d) && Truthful(d, rendered, clut, shown, delivered)
    requires Matches(d, rendered, scene, scale) && clut == Some(scene.clut)
    ensures shown.Some? && rendered.scale == scale
    ensures Compose(d, shown.value, scale, None) == Compose(d, scene, scale, None)
    ensures Expands(d, shown.value, scale) <==> Expands(d, scene, scale)
    ensures Expands(d, scene, scale) ==> delivered == Compose(d, scene, scale, None)
  {
    SameInputsSameImage(d, shown.value, scene, scale);
  }

  /** Restoring `saved` into `now` gives `clean`: they differ only where pixels were saved. */
  ghost predicate Undoable(now: seq<Pixel>, clean: seq<Pixel>, width: nat, height: nat, rect: Option<Rect>,
                           saved: seq<Pixel>)
    requires rect.Some? ==> rect.value.Within(width, height)
  {
    match rect
    case None => now == clean
    case Some(r) =>
      && |clean| == width * height
      && saved == Patch(clean, width, height, r)
      && SameOutside(now, clean, width, r)
  }

  // ---------- Owned packets ----------

  /** A mode an indexed packet is captured in. */
  predicate Capturable(mode: Mode) {
    && mode.depth == 8 && mode.width != 0 && mode.height != 0
    && mode.rowBytes <= 8192 && mode.width <= 8192 && mode.height <= 8192
    && mode.rowBytes * mode.height <= 16 * 1024 * 1024
  }

  /** The cursor is outside the screen, or its visible part and the mouse in it are small enough. */
  predicate PatchFits(cursor: Option<Cursor>, mouse: Point, width: nat, height: nat) {
    cursor.Some? ==>
      var rect := Footprint(cursor.value, mouse, width, height);
      rect.Empty()
      || (rect.Columns() * rect.Rows() <= 4096
          && -32768 <= mouse.v - rect.top <= 32767 && -32768 <= mouse.h - rect.left <= 32767)
  }

  /** The scene goes into an indexed packet. */
  predicate Indexable<S>(d: Display<S>, scene: Scene<S>) {
    && !d.Outline(scene.screen) && Capturable(scene.mode)
    && d.Pack(scene.screen, scene.mode, scene.clut).Valid()
    && PatchFits(scene.cursor, scene.mouse, scene.mode.width, scene.mode.height)
  }

  /** The sizes a compact packet is bounded to. */
  predicate CompactFits(mode: Mode, scale: nat) {
    var width, height := mode.width * scale, mode.height * scale;
    && mode.width * mode.height <= 1024 * 1024 && 1 <= scale <= 4
    && 0 < width <= 8192 && 0 < height <= 8192 && width * height <= 16 * 1024 * 1024
  }

  function Overlays<S(!new)>(d: Display<S>, scene: Scene<S>): seq<Option<Pixel>> {
    Differences(Decoded(d, scene), Overlaid(d, scene, None))
  }

  /** The scene goes into a compact packet. */
  predicate Compactable<S(!new)>(d: Display<S>, scene: Scene<S>, scale: nat) {
    && d.Outline(scene.screen) && CompactFits(scene.mode, scale)
    && d.Detail(scene.screen, Overlays(d, scene), scale).Some?
  }

  /** What the presenter shows of an indexed packet is the composition. */
  lemma IndexedIsComposition<S(!new)>(d: Display<S>, scene: Scene<S>, scale: nat, image: seq<Pixel>)
    requires Lawful(d) && Exporting(d) && Indexable(d, scene)
    requires var p := d.Pack(scene.screen, scene.mode, scene.clut);
             |p.palette| == 256 &&
             image == if scene.cursor.None? then Indexed.Decoded(p)
                      else Draw(d.rule, Indexed.Decoded(p), p.width, scene.cursor.value, scene.mouse)
    ensures Compose(d, scene, scale, None) == Image(scene.mode.width, scene.mode.height, image)
  {
  }

  /** And so is what it shows of a compact packet. */
  lemma CompactIsComposition<S(!new)>(d: Display<S>, scene: Scene<S>, scale: nat)
    requires Exporting(d) && Compactable(d, scene, scale)
    ensures Some(Compose(d, scene, scale, None)) == d.Detail(scene.screen, Overlays(d, scene), scale)
  {
    assert d.Expand(scene.screen, Decoded(d, scene), Overlaid(d, scene, None), scale)
        == d.Detail(scene.screen, Differences(Decoded(d, scene), Overlaid(d, scene, None)), scale);
  }

  class Renderer<S(!new)> {
    const display: Display<S>
    const backup: CursorBackup
    var outputScale: nat
    // The decoded logical screen, possibly with a monochrome cursor drawn into it.
    var frame: array<Pixel>
    var frameEpoch: Option<nat>
    var frameMode: Option<Mode>
    var framePalette: Palette
    var framePaletteClut: Option<Clut>
    // The inputs of the image shown last, and where that image is retained.
    var rendered: Stamps
    var renderedCursorInFrame: bool
    var renderedPacket: bool
    var overlay: seq<Pixel>
    var presented: seq<Pixel>
    var presentedWidth: nat
    var presentedHeight: nat

    // The screen below the cursor, the surface it came from, and the scene and image shown last.
    ghost var clean: seq<Pixel>
    ghost var frameScreen: Option<S>
    ghost var shown: Option<Scene<S>>
    ghost var delivered: Image

    /** Undoing the saved cursor turns the retained frame back into the clean one. */
    ghost predicate FrameUndoable()
      reads this, frame, backup
    {
      && backup.Valid()
      && Undoable(frame[..], clean, backup.frameWidth, backup.frameHeight, backup.rect, backup.pixels)
    }

    ghost predicate FrameCurrent()
      reads this
    {
      && (framePaletteClut.Some? ==> framePalette == display.Colours(framePaletteClut.value))
      && (!renderedPacket ==> Current(display, frameEpoch, frameMode, framePaletteClut, frameScreen, clean))
    }

    ghost predicate ImageRetained()
      reads this, frame
    {
      rendered.epoch.Some? && shown.Some? && !renderedPacket ==>
        Retains(display, shown.value, rendered.scale, renderedCursorInFrame,
                presentedWidth, presentedHeight, presented, overlay, frame[..])
    }

    ghost predicate Valid()
      reads this, frame, backup
    {
      && FrameUndoable()
      && FrameCurrent()
      && Truthful(display, rendered, framePaletteClut, shown, delivered)
      && ImageRetained()
    }

    constructor (d: Display<S>)
      ensures Valid() && fresh(frame) && fresh(backup)
      ensures display == d && outputScale == 1
      ensures rendered.epoch == None && !renderedPacket && presented == []
    {
      display, outputScale := d, 1;
      backup := new CursorBackup();
      frame := new Pixel[0](_ => Pixel(0, 0, 0, 0));
      frameEpoch, frameMode, framePalette, framePaletteClut := None, None, [], None;
      rendered := Stamps(None, None, 0, false, None, Point(0, 0));
      renderedCursorInFrame, renderedPacket := false, false;
      overlay, presented, presentedWidth, presentedHeight := [], [], 0, 0;
      clean, frameScreen, shown, delivered := [], None, None, Image(0, 0, []);
      new;
      assert frame[..] == [];
    }

    method SetOutputScale(scale: nat)
      requires Valid()
      modifies this`outputScale
      ensures Valid() && outputScale == Clamp(scale, 1, 4)
    {
      outputScale := Clamp(scale, 1, 4);
    }

    /** A host cursor change forces the next paint. */
    method ForceRepaint()
      requires Valid()
      modifies this`rendered
      ensures Valid() && rendered.epoch == None
    {
      rendered := rendered.(epoch := None);
    }

    /** Everything the unchanged-image path compares. */
    predicate Unchanged(scene: Scene<S>)
      reads this
    {
      Matches(display, rendered, scene, outputScale) && framePaletteClut == Some(scene.clut)
    }

    /** Whether the scene needs painting. With a stamp, "no" means that the scene agrees with the one
        shown last on all that is compared, so that the image delivered last is its composition. */
    method HasUnpaintedVisualChange(scene: Scene<S>, fallback: bool) returns (changed: bool)
      requires Lawful(display) && Valid()
      ensures display.Epoch(scene.screen).None? ==> changed == fallback
      ensures display.Epoch(scene.screen).Some? ==>
                (changed <==> !(rendered.epoch.Some? && rendered.scale == outputScale
                                && SameInputs(display, shown.value, scene)))
      ensures display.Epoch(scene.screen).Some? && !changed && Expands(display, scene, outputScale) ==>
        delivered == Compose(display, scene, outputScale, None)
    {
      if display.Epoch(scene.screen).None? {
        return fallback;
      }
      changed := !Unchanged(scene);
      MatchesExactly(display, rendered, framePaletteClut, shown, delivered, scene, outputScale);
      if !changed {
        MatchIsShown(display, rendered, framePaletteClut, shown, delivered, scene, outputScale);
      }
    }

    /** An owned packet carried this scene's image: stamps change, retained pixels do not. */
    method RecordOwnedPresentation(scene: Scene<S>, outline: bool, width: nat, height: nat, ghost image: Image)
      requires Valid() && outline == display.Outline(scene.screen)
               && image == Compose(display, scene, outputScale, None)
      modifies this`rendered, this`framePaletteClut, this`framePalette, this`renderedPacket,
               this`presentedWidth, this`presentedHeight, this`shown, this`delivered
      ensures Valid() && renderedPacket && delivered == image
      ensures rendered == StampsOf(display, scene, outputScale) && shown == Some(scene)
    {
      FreshStampsAreTruthful(display, scene, outputScale);
      rendered := Stamps(display.Epoch(scene.screen), Some(scene.mode), outputScale, outline, scene.cursor,
                         scene.mouse);
      framePaletteClut := Some(scene.clut);
      framePalette := display.Colours(scene.clut);
      renderedPacket := true;
      presentedWidth, presentedHeight := width, height;
      shown, delivered := Some(scene), image;
    }

    /** The packed screen and its cursor patch; the image is what the presenter shows of them. */
    method CaptureIndexed(scene: Scene<S>) returns (image: Option<Image>)
      requires Lawful(display) && Exporting(display) && !display.Outline(scene.screen)
      ensures image.Some? <==> Indexable(display, scene)
      ensures image.Some? ==> image.value == Compose(display, scene, outputScale, None)
    {
      if !Capturable(scene.mode) {
        return None;
      }
      var indexed := new Indexed.IndexedFrame(display.Pack(scene.screen, scene.mode, scene.clut));
      var prepared := indexed.Prepare(display.rule, scene.cursor, scene.mouse);
      if !prepared {
        return None;
      }
      var shown := Indexed.Shown(indexed.screen, indexed.cursor);
      IndexedIsComposition(display, scene, outputScale, shown);
      image := Some(Image(scene.mode.width, scene.mode.height, shown));
    }

    method RenderIndexed(scene: Scene<S>) returns (image: Option<Image>)
      requires Lawful(display) && Exporting(display) && Valid()
      modifies this
      ensures Valid() && frame == old(frame) && outputScale == old(outputScale)
      ensures image.Some? <==> Indexable(display, scene)
      ensures image.Some? ==> image.value == delivered == Compose(display, scene, outputScale, None)
                              && rendered == StampsOf(display, scene, outputScale) && shown == Some(scene)
      ensures image.None? ==> unchanged(this)
    {
      if display.Outline(scene.screen) {
        return None;
      }
      image := CaptureIndexed(scene);
      if image.Some? {
        RecordOwnedPresentation(scene, false, scene.mode.width, scene.mode.height, image.value);
      }
    }

    /** The overlay pixels are exported against the decoded screen; without a cursor there are none. */
    method ExportCompact(scene: Scene<S>) returns (image: Option<Image>)
      requires Lawful(display)
      ensures image == display.Detail(scene.screen, Overlays(display, scene), outputScale)
    {
      if scene.cursor.Some? {
        var guest := display.Decode(scene.screen, scene.mode, display.Colours(scene.clut));
        var overlaid := Draw(display.rule, guest, scene.mode.width, scene.cursor.value, scene.mouse);
        image := display.Detail(scene.screen, Differences(guest, overlaid), outputScale);
      } else {
        var none := seq(scene.mode.width * scene.mode.height, _ => None);
        assert none == Overlays(display, scene);
        image := display.Detail(scene.screen, none, outputScale);
      }
    }

    method RenderCompact(scene: Scene<S>) returns (image: Option<Image>)
      requires Lawful(display) && Exporting(display) && Valid()
      modifies this
      ensures Valid() && frame == old(frame) && outputScale == old(outputScale)
      ensures image.Some? <==> Compactable(display, scene, outputScale)
      ensures image.Some? ==> image.value == delivered == Compose(display, scene, outputScale, None)
                              && rendered == StampsOf(display, scene, outputScale) && shown == Some(scene)
      ensures image.None? ==> unchanged(this)
    {
      if !display.Outline(scene.screen) {
        return None;
      }
      var width, height := scene.mode.width * outputScale, scene.mode.height * outputScale;
      if scene.mode.width * scene.mode.height > 1024 * 1024
         || !(1 <= outputScale <= 4)
         || width == 0 || height == 0 || width > 8192 || height > 8192
         || width * height > 16 * 1024 * 1024
      {
        return None;
      }
      image := ExportCompact(scene);
      if image.Some? {
        CompactIsComposition(display, scene, outputScale);
        RecordOwnedPresentation(scene, true, width, height, image.value);
      }
    }

    /** Undo the cursor, then decode again unless the retained frame is current. */
    method RefreshFrame(scene: Scene<S>)
      requires Lawful(display) && FrameUndoable() && FrameCurrent() && !renderedPacket
      modifies this`frame, this`frameEpoch, this`frameMode, this`framePalette, this`framePaletteClut,
               this`clean, this`frameScreen, backup, frame
      ensures FrameUndoable() && FrameCurrent()
      ensures frame == old(frame) || fresh(frame)
      ensures backup.rect.None? && frame[..] == clean == Decoded(display, scene)
      ensures framePaletteClut == Some(scene.clut)
    {
      var paletteChanged := framePaletteClut != Some(scene.clut);
      if backup.rect.Some? {
        UndoRecoversFrame(clean, frame[..], backup.frameWidth, backup.frameHeight, backup.rect.value);
      }
      backup.Restore(frame);
      if paletteChanged {
        framePalette := display.Colours(scene.clut);
        framePaletteClut := Some(scene.clut);
      }
      var epoch := display.Epoch(scene.screen);
      var cached := epoch.Some? && !paletteChanged && frameEpoch == epoch && frameMode == Some(scene.mode);
      if !cached {
        var decoded := display.Decode(scene.screen, scene.mode, framePalette);
        frame := new Pixel[|decoded|](i requires 0 <= i < |decoded| => decoded[i]);
        backup.Discard();
        frameEpoch, frameMode := epoch, Some(scene.mode);
        clean, frameScreen := decoded, Some(scene.screen);
        assert frame[..] == decoded;
      }
    }

    /** Draws a monochrome cursor into the retained frame, saving what it covers. */
    method DrawCursorInFrame(scene: Scene<S>) returns (inFrame: bool)
      requires Lawful(display) && FrameUndoable() && backup.rect.None? && clean == Decoded(display, scene)
      requires scene.cursor.Some? && scene.cursor.value.Mono?
      modifies backup, frame
      ensures FrameUndoable() && inFrame
      ensures frame[..] == Overlaid(display, scene, None)
    {
      var width, height, cursor := scene.mode.width, scene.mode.height, scene.cursor.value;
      inFrame := backup.CaptureMono(frame, width, height, cursor, scene.mouse);
      var drawn := Draw(display.rule, frame[..], width, cursor, scene.mouse);
      DrawStaysInFootprint(display.rule, frame[..], width, height, cursor, scene.mouse);
      if Footprint(cursor, scene.mouse, width, height).Empty() {
        EmptyFootprintDrawsNothing(display.rule, frame[..], width, height, cursor, scene.mouse);
      }
      forall i | 0 <= i < frame.Length {
        frame[i] := drawn[i];
      }
      assert frame[..] == drawn;
    }

    /** The image shown last, from the buffer that retains it. */
    method RetainedImage(scene: Scene<S>) returns (image: Image)
      requires Lawful(display) && Valid() && !renderedPacket && Unchanged(scene)
      modifies this`delivered
      ensures Valid() && delivered == image
      ensures Expands(display, scene, outputScale) ==> image == Compose(display, scene, outputScale, None)
      ensures display.Outline(scene.screen) ==> image.pixels == presented
    {
      MatchIsShown(display, rendered, framePaletteClut, shown, delivered, scene, outputScale);
      if rendered.outline {
        image := Image(presentedWidth, presentedHeight, presented);
      } else if rendered.cursor.Some? && !renderedCursorInFrame {
        image := Image(presentedWidth, presentedHeight, overlay);
      } else {
        image := Image(presentedWidth, presentedHeight, frame[..]);
      }
      delivered := image;
    }

    /** Draws overlays and the outline over a fresh frame, leaving the image in its buffer. */
    method ComposeImage(scene: Scene<S>, lines: Option<Lines>) returns (image: Image, cursorInFrame: bool)
      requires Lawful(display) && FrameUndoable() && backup.rect.None? && clean == Decoded(display, scene)
      modifies this`overlay, this`presented, this`presentedWidth, this`presentedHeight, backup, frame
      ensures FrameUndoable()
      ensures image == Compose(display, scene, outputScale, lines)
      ensures lines.None? ==> Retains(display, scene, outputScale, cursorInFrame, presentedWidth, presentedHeight,
                                      presented, overlay, frame[..])
      ensures lines.None? && display.Outline(scene.screen) && !Expands(display, scene, outputScale) ==>
                presented == old(presented)
    {
      var width, height := scene.mode.width, scene.mode.height;
      var outline := display.Outline(scene.screen);
      var hasOverlay := scene.cursor.Some? || lines.Some?;
      cursorInFrame := false;
      if lines.None? && !outline && scene.cursor.Some? && scene.cursor.value.Mono? {
        cursorInFrame := DrawCursorInFrame(scene);
      }
      if !cursorInFrame {
        if hasOverlay {
          overlay := frame[..];
        }
        if scene.cursor.Some? {
          overlay := Draw(display.rule, overlay, width, scene.cursor.value, scene.mouse);
        }
      }
      if lines.Some? {
        overlay := display.Debug(overlay, width, height, lines.value);
      }
      presentedWidth, presentedHeight := width, height;
      if outline {
        var withOverlays := if hasOverlay then overlay else frame[..];
        assert withOverlays == Overlaid(display, scene, lines);
        match display.Expand(scene.screen, frame[..], withOverlays, outputScale) {
          case Some(expanded) =>
            presented := expanded.pixels;
            presentedWidth, presentedHeight := expanded.width, expanded.height;
            image := expanded;
          case None =>
            image := Image(width, height, withOverlays);
        }
      } else if cursorInFrame || !hasOverlay {
        image := Image(width, height, frame[..]);
      } else {
        image := Image(width, height, overlay);
      }
    }

    /** Records which scene the retained buffers now show; a debug panel is never retained. */
    method RecordStamps(scene: Scene<S>, lines: Option<Lines>, image: Image, cursorInFrame: bool)
      requires Lawful(display) && FrameUndoable() && FrameCurrent() && !renderedPacket
      requires framePaletteClut == Some(scene.clut)
      requires image == Compose(display, scene, outputScale, lines)
      requires lines.None? ==> Retains(display, scene, outputScale, cursorInFrame, presentedWidth, presentedHeight,
                                       presented, overlay, frame[..])
      modifies this`rendered, this`renderedCursorInFrame, this`shown, this`delivered
      ensures Valid() && delivered == image
      ensures if lines.None? && display.Epoch(scene.screen).Some? then Unchanged(scene) else rendered.epoch.None?
    {
      if lines.None? && display.Epoch(scene.screen).Some? {
        rendered := StampsOf(display, scene, outputScale);
        renderedCursorInFrame := cursorInFrame;
      } else {
        rendered := rendered.(epoch := None, cursor := None);
        renderedCursorInFrame := false;
      }
      shown, delivered := Some(scene), image;
    }

    /** One paint. Every paint composes the current scene from scratch in effect; only the
        unchanged-image path with a refused outline expansion may show an older image. */
    method RenderRgba(scene: Scene<S>, lines: Option<Lines>) returns (image: Image)
      requires Lawful(display) && Valid()
      modifies this, backup, frame
      ensures Valid() && outputScale == old(outputScale) && !renderedPacket
      ensures frame == old(frame) || fresh(frame)
      ensures var retained := lines.None? && !old(renderedPacket) && old(Unchanged(scene));
              && (!retained || Expands(display, scene, outputScale) ==>
                    image == Compose(display, scene, outputScale, lines))
              && (retained && display.Outline(scene.screen) ==> image.pixels == old(presented))
      ensures delivered == image
      ensures if lines.None? && display.Epoch(scene.screen).Some? then Unchanged(scene) else rendered.epoch.None?
      ensures lines.None? && display.Outline(scene.screen) && !Expands(display, scene, outputScale) ==>
                presented == old(presented)
    {
      if renderedPacket {
        rendered, frameEpoch, renderedPacket := rendered.(epoch := None), None, false;
      }
      if lines.None? && Unchanged(scene) {
        image := RetainedImage(scene);
        return;
      }
      image := Repaint(scene, lines);
    }

    /** Decodes, composes and retains. */
    method Repaint(scene: Scene<S>, lines: Option<Lines>) returns (image: Image)
      requires Lawful(display) && Valid() && !renderedPacket
      modifies this, backup, frame
      ensures Valid() && outputScale == old(outputScale) && !renderedPacket
      ensures frame == old(frame) || fresh(frame)
      ensures image == Compose(display, scene, outputScale, lines) && delivered == image
      ensures if lines.None? && display.Epoch(scene.screen).Some? then Unchanged(scene) else rendered.epoch.None?
      ensures lines.None? && display.Outline(scene.screen) && !Expands(display, scene, outputScale) ==>
                presented == old(presented)
    {
      RefreshFrame(scene);
      var cursorInFrame;
      image, cursorInFrame := ComposeImage(scene, lines);
      RecordStamps(scene, lines, image, cursorInFrame);
    }
  }

  datatype Event<S> =
    | Paint(scene: Scene<S>, lines: Option<Lines>)
    | IndexedPacket(scene: Scene<S>)
    | CompactPacket(scene: Scene<S>)
    | Poll(scene: Scene<S>, fallback: bool)
    | SetScale(scale: nat)
    | HostCursorChanged

  datatype Outcome = Shown(image: Image) | Answer(changed: bool) | Nothing

  /** The output scale in force after a run of events. */
  function ScaleAfter<S>(events: seq<Event<S>>): nat {
    if events == [] then 1
    else
      var last := events[|events| - 1];
      if last.SetScale? then Clamp(last.scale, 1, 4) else ScaleAfter(events[..|events| - 1])
  }

  /** The image the browser holds after a run of outcomes. */
  function LastImage(outcomes: seq<Outcome>): Option<Image> {
    if outcomes == [] then None
    else
      var last := outcomes[|outcomes| - 1];
      if last.Shown? then Some(last.image) else LastImage(outcomes[..|outcomes| - 1])
  }

  /** The scene and output scale the next poll is compared with. */
  datatype Basis<S> = NoBasis | Basis(scene: Scene<S>, scale: nat)

  /** A paint or packet of a stamped scene is what later polls are compared with; a debug panel, an
      unstamped scene or a changed host cursor leaves nothing to compare with. */
  function Compared<S>(d: Display<S>, event: Event<S>, scale: nat, outcome: Outcome, before: Basis<S>): Basis<S> {
    match event
    case Paint(scene, lines) =>
      if lines.None? && d.Epoch(scene.screen).Some? then Basis(scene, scale) else NoBasis
    case HostCursorChanged => NoBasis
    case Poll(_, _) => before
    case SetScale(_) => before
    case _ =>
      if !outcome.Shown? then before
      else if d.Epoch(event.scene.screen).Some? then Basis(event.scene, scale)
      else NoBasis
  }

  function BasisAfter<S>(d: Display<S>, events: seq<Event<S>>, outcomes: seq<Outcome>): Basis<S>
    requires |events| == |outcomes|
  {
    if events == [] then NoBasis
    else
      var n := |events| - 1;
      Compared(d, events[n], ScaleAfter(events[..n]), outcomes[n], BasisAfter(d, events[..n], outcomes[..n]))
  }

  /** What an event owes: a paint shows the composition of its own scene; a packet is sent exactly when
      the scene fits one and shows the composition too; and a poll answers "no change" exactly when the
      scene agrees with the basis on all that is compared, in which case the image held is its composition. */
  ghost predicate Correct<S(!new)>(d: Display<S>, event: Event<S>, scale: nat, held: Option<Image>, basis: Basis<S>,
                                   outcome: Outcome) {
    match event
    case Paint(scene, lines) =>
      Expands(d, scene, scale) || lines.Some? || d.Epoch(scene.screen).None? ==>
        outcome == Shown(Compose(d, scene, scale, lines))
    case IndexedPacket(scene) =>
      outcome == if Indexable(d, scene) then Shown(Compose(d, scene, scale, None)) else Nothing
    case CompactPacket(scene) =>
      outcome == if Compactable(d, scene, scale) then Shown(Compose(d, scene, scale, None)) else Nothing
    case Poll(scene, fallback) =>
      && outcome.Answer?
      && (d.Epoch(scene.screen).None? ==> outcome.changed == fallback)
      && (d.Epoch(scene.screen).Some? ==>
            (outcome.changed <==> !(basis.Basis? && basis.scale == scale && SameInputs(d, basis.scene, scene))))
      && (d.Epoch(scene.screen).Some? && Expands(d, scene, scale) && !outcome.changed ==>
            held == Some(Compose(d, scene, scale, None)))
    case _ => outcome == Nothing
  }

  function Held(outcome: Outcome, before: Option<Image>): Option<Image> {
    if outcome.Shown? then Some(outcome.image) else before
  }

  /** The renderer's stamps stand for the basis, and its image is the one held. */
  ghost predicate Stands<S(!new)>(d: Display<S>, rendered: Stamps, shown: Option<Scene<S>>, delivered: Image,
                                  held: Option<Image>, basis: Basis<S>)
  {
    && (rendered.epoch.Some? <==> basis.Basis?)
    && (rendered.epoch.Some? ==> held == Some(delivered) && shown.Some?
                                 && rendered.scale == basis.scale && SameInputs(d, shown.value, basis.scene))
  }

  /** A scene agrees with the scene shown exactly when it agrees with the basis. */
  lemma SameAsBasis<S>(d: Display<S>, shown: Scene<S>, basis: Scene<S>, scene: Scene<S>)
    requires SameInputs(d, shown, basis)
    ensures SameInputs(d, shown, scene) <==> SameInputs(d, basis, scene)
  {
  }

  method Step<S(!new)>(renderer: Renderer<S>, event: Event<S>, ghost held: Option<Image>, ghost basis: Basis<S>)
    returns (outcome: Outcome)
    requires Lawful(renderer.display) && Exporting(renderer.display) && renderer.Valid()
    requires Stands(renderer.display, renderer.rendered, renderer.shown, renderer.delivered, held, basis)
    modifies renderer, renderer.backup, renderer.frame
    ensures renderer.Valid() && (renderer.frame == old(renderer.frame) || fresh(renderer.frame))
    ensures renderer.outputScale == if event.SetScale? then Clamp(event.scale, 1, 4) else old(renderer.outputScale)
    ensures Correct(renderer.display, event, old(renderer.outputScale), held, basis, outcome)
    ensures Stands(renderer.display, renderer.rendered, renderer.shown, renderer.delivered, Held(outcome, held),
                   Compared(renderer.display, event, old(renderer.outputScale), outcome, basis))
  {
    outcome := Nothing;
    match event {
      case Paint(scene, lines) =>
        outcome := PaintStep(renderer, scene, lines, held);
      case IndexedPacket(scene) =>
        var image := renderer.RenderIndexed(scene);
        if image.Some? {
          outcome := Shown(image.value);
        }
      case CompactPacket(scene) =>
        var image := renderer.RenderCompact(scene);
        if image.Some? {
          outcome := Shown(image.value);
        }
      case Poll(scene, fallback) =>
        outcome := PollStep(renderer, scene, fallback, held, basis);
      case SetScale(k) =>
        renderer.SetOutputScale(k);
      case HostCursorChanged =>
        renderer.ForceRepaint();
    }
  }

  method PaintStep<S(!new)>(renderer: Renderer<S>, scene: Scene<S>, lines: Option<Lines>, ghost held: Option<Image>)
    returns (outcome: Outcome)
    requires Lawful(renderer.display) && renderer.Valid()
    modifies renderer, renderer.backup, renderer.frame
    ensures renderer.Valid() && (renderer.frame == old(renderer.frame) || fresh(renderer.frame))
    ensures renderer.outputScale == old(renderer.outputScale)
    ensures outcome == Shown(renderer.delivered)
    ensures (Expands(renderer.display, scene, renderer.outputScale) || lines.Some?
             || renderer.display.Epoch(scene.screen).None?) ==>
              outcome == Shown(Compose(renderer.display, scene, renderer.outputScale, lines))
    ensures if lines.None? && renderer.display.Epoch(scene.screen).Some?
            then renderer.rendered.epoch.Some? && renderer.rendered.scale == renderer.outputScale
                 && renderer.shown.Some? && SameInputs(renderer.display, renderer.shown.value, scene)
            else renderer.rendered.epoch.None?
  {
    var image := renderer.RenderRgba(scene, lines);
    MatchesExactly(renderer.display, renderer.rendered, renderer.framePaletteClut, renderer.shown, renderer.delivered,
                   scene, renderer.outputScale);
    outcome := Shown(image);
  }

  method PollStep<S(!new)>(renderer: Renderer<S>, scene: Scene<S>, fallback: bool, ghost held: Option<Image>,
                           ghost basis: Basis<S>)
    returns (outcome: Outcome)
    requires Lawful(renderer.display) && renderer.Valid()
    requires Stands(renderer.display, renderer.rendered, renderer.shown, renderer.delivered, held, basis)
    ensures Correct(renderer.display, Poll(scene, fallback), renderer.outputScale, held, basis, outcome)
  {
    var changed := renderer.HasUnpaintedVisualChange(scene, fallback);
    if basis.Basis? {
      SameAsBasis(renderer.display, renderer.shown.value, basis.scene, scene);
    }
    outcome := Answer(changed);
  }

  /** Event `i` of a run got what it was owed. */
  ghost predicate Owed<S(!new)>(d: Display<S>, events: seq<Event<S>>, outcomes: seq<Outcome>, i: nat)
    requires i < |outcomes| <= |events|
  {
    Correct(d, events[i], ScaleAfter(events[..i]), LastImage(outcomes[..i]), BasisAfter(d, events[..i], outcomes[..i]),
            outcomes[i])
  }

  ghost predicate AllOwed<S(!new)>(d: Display<S>, events: seq<Event<S>>, outcomes: seq<Outcome>)
    requires |outcomes| <= |events|
  {
    forall i :: 0 <= i < |outcomes| ==> Owed(d, events, outcomes, i)
  }

  lemma OwedMore<S(!new)>(d: Display<S>, events: seq<Event<S>>, before: seq<Outcome>, outcome: Outcome)
    requires |before| < |events| && AllOwed(d, events, before)
    requires Correct(d, events[|before|], ScaleAfter(events[..|before|]), LastImage(before),
                     BasisAfter(d, events[..|before|], before), outcome)
    ensures AllOwed(d, events, before + [outcome])
  {
    var outcomes := before + [outcome];
    forall i | 0 <= i < |outcomes| ensures Owed(d, events, outcomes, i) {
      if i < |before| {
        assert outcomes[..i] == before[..i] && Owed(d, events, before, i);
      } else {
        assert outcomes[..i] == before;
      }
    }
  }

  lemma AfterMore<S>(d: Display<S>, events: seq<Event<S>>, n: nat, before: seq<Outcome>, outcome: Outcome)
    requires |before| == n < |events|
    ensures LastImage(before + [outcome]) == Held(outcome, LastImage(before))
    ensures ScaleAfter(events[..n + 1])
         == if events[n].SetScale? then Clamp(events[n].scale, 1, 4) else ScaleAfter(events[..n])
    ensures BasisAfter(d, events[..n + 1], before + [outcome])
         == Compared(d, events[n], ScaleAfter(events[..n]), outcome, BasisAfter(d, events[..n], before))
  {
    assert events[..n + 1][..n] == events[..n];
    assert (before + [outcome])[..n] == before;
  }

  /** Every run: paints, packets, polls, scale changes and guest changes in any order. */
  method Replay<S(!new)>(d: Display<S>, events: seq<Event<S>>) returns (outcomes: seq<Outcome>)
    requires Lawful(d) && Exporting(d)
    ensures |outcomes| == |events| && forall i :: 0 <= i < |events| ==> Owed(d, events, outcomes, i)
  {
    var renderer := new Renderer(d);
    outcomes := [];
    for n := 0 to |events|
      invariant |outcomes| == n && AllOwed(d, events, outcomes)
      invariant renderer.Valid() && renderer.display == d
      invariant fresh(renderer) && fresh(renderer.frame) && fresh(renderer.backup)
      invariant renderer.outputScale == ScaleAfter(events[..n])
      invariant Stands(d, renderer.rendered, renderer.shown, renderer.delivered, LastImage(outcomes),
                       BasisAfter(d, events[..n], outcomes))
    {
      var outcome := Step(renderer, events[n], LastImage(outcomes), BasisAfter(d, events[..n], outcomes));
      AfterMore(d, events, n, outcomes, outcome);
      OwedMore(d, events, outcomes, outcome);
      outcomes := outcomes + [outcome];
    }
  }

  /** The hypothesis on outline expansion is exact: repainting an unchanged scene in a new
      renderer shows its composition if and only if the surface expands it (an image without
      pixels aside). When the surface refuses, the second paint shows the empty buffer. */
  method PaintTwice<S(!new)>(d: Display<S>, scene: Scene<S>) returns (first: Image, second: Image)
    requires Lawful(d) && d.Epoch(scene.screen).Some?
    ensures first == Compose(d, scene, 1, None)
    ensures Expands(d, scene, 1) ==> second == first
    ensures second.pixels == first.pixels <==> Expands(d, scene, 1) || first.pixels == []
  {
    var renderer := new Renderer(d);
    first := renderer.RenderRgba(scene, None);
    second := renderer.RenderRgba(scene, None);
  }
}
