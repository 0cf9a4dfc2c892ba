/** How the desktop runner learns which part of the guest screen to show (systemless.rs,
    `present_frame`): a crop is accepted after enough agreeing frames, given up after persistent
    drawing outside it, and then learned again under a stricter rule. This module says what one
    frame does, on values; the runner's fields are in CropLearner.dfy and the theorems about runs
    in CropRuns.dfy. */
module CropLearning {
  import opened Base
  import opened ContentMargins
  import opened CentredContent

  const CONFIRMATIONS := 5
  const RELEARN_CONFIRMATIONS := 120
  const MARGIN_REFRESH_FRAMES := 8
  const COUNTER_LIMIT := 65535

  // ---------- Rectangles the guest reports ----------

  /** A destination rectangle of the guest, in signed screen coordinates. */
  datatype GuestRect = GuestRect(left: int, top: int, right: int, bottom: int)

  /** A guest rectangle that can crop a `w` by `h` screen: inside it, with a border of four pixels
      on some side, and at least half of it each way. */
  function FromCopyBits(rect: GuestRect, w: nat, h: nat): (crop: Option<ContentRect>)
    ensures crop.Some? ==> crop.value.Within(w, h) && crop.value != FullScreen(w, h)
  {
    if w < 32 || h < 32 || rect.left < 0 || rect.top < 0 || rect.right < 0 || rect.bottom < 0 then None
    else if rect.right <= rect.left || rect.bottom <= rect.top || rect.right > w || rect.bottom > h then None
    else
      var border := rect.left >= 4 || w - rect.right >= 4 || rect.top >= 4 || h - rect.bottom >= 4;
      if !border || rect.right - rect.left < w / 2 || rect.bottom - rect.top < h / 2 then None
      else Some(ContentRect(rect.left, rect.top, rect.right - rect.left, rect.bottom - rect.top))
  }

  /** It is taken as it is, and exactly when it lies on a screen of at least 32 pixels each way, leaves at least
      four out on some side, and covers at least half of it, rounded down, each way. */
  lemma CopyBitsExactly(rect: GuestRect, w: nat, h: nat)
    ensures FromCopyBits(rect, w, h).Some? <==>
            && 32 <= w && 32 <= h && 0 <= rect.left < rect.right <= w && 0 <= rect.top < rect.bottom <= h
            && (rect.left > 3 || rect.right < w - 3 || rect.top > 3 || rect.bottom < h - 3)
            && w <= 2 * (rect.right - rect.left) + 1 && h <= 2 * (rect.bottom - rect.top) + 1
    ensures FromCopyBits(rect, w, h).Some? ==>
              var crop := FromCopyBits(rect, w, h).value;
              && crop.left == rect.left && crop.left + crop.width == rect.right
              && crop.top == rect.top && crop.top + crop.height == rect.bottom
  {
  }

  function Reported(rect: Option<GuestRect>, w: nat, h: nat): Option<ContentRect> {
    if rect.Some? then FromCopyBits(rect.value, w, h) else None
  }

  /** What a captured frame says about its crop. */
  datatype Frame = Frame(key: (nat, nat), screen: Screen, depth: nat, dialog: bool,
                         framed: Option<GuestRect>, manual: Option<GuestRect>, declared: Option<GuestRect>,
                         copyBits: Option<GuestRect>, copyBitsCount: nat)
  {
    function Mode(): (nat, nat, nat) { (screen.width, screen.height, depth) }
    function Full(): ContentRect { FullScreen(screen.width, screen.height) }
    function FramedRect(): Option<ContentRect> { Reported(framed, screen.width, screen.height) }
    function DeclaredRect(): Option<ContentRect> {
      Reported(if manual.Some? then manual else declared, screen.width, screen.height)
    }
    function CopyBitsRect(): Option<ContentRect> { Reported(copyBits, screen.width, screen.height) }

    /** The rectangles the frame gives evidence for. */
    ghost function Evidence(): iset<ContentRect> {
      iset rect | FramedRect() == Some(rect) || DeclaredRect() == Some(rect) || CopyBitsRect() == Some(rect)
                  || DetectedOn(screen, rect)
    }
  }

  // ---------- The cached margin verdict ----------

  datatype Cache = Cache(entry: Option<(ContentRect, bool)>, refresh: nat)

  /** The cache answers for the rectangle without a histogram. */
  predicate Hits(cache: Cache, rect: ContentRect) {
    cache.entry.Some? && cache.entry.value.0 == rect && cache.refresh > 0
  }

  function Filled(rect: ContentRect, exact: bool): Cache { Cache(Some((rect, exact)), MARGIN_REFRESH_FRAMES - 1) }

  const EMPTY_CACHE := Cache(None, 0)

  /** The margins of a rectangle on the screen of processed frame `frame` are asked about; another
      screen mode forgets the cache. */
  datatype Query = Asked(frame: nat, screen: Screen, rect: ContentRect) | Forgotten

  ghost function CacheAfter(queries: seq<Query>): Cache {
    if queries == [] then EMPTY_CACHE
    else
      var before := CacheAfter(queries[..|queries| - 1]);
      match queries[|queries| - 1]
      case Forgotten => EMPTY_CACHE
      case Asked(_, screen, rect) =>
        if Hits(before, rect) then before.(refresh := before.refresh - 1)
        else Filled(rect, InactiveMargins(screen, rect))
  }

  /** The verdict given to consultation `i`. */
  ghost predicate Answer(queries: seq<Query>, i: nat)
    requires i < |queries| && queries[i].Asked?
  {
    var before := CacheAfter(queries[..i]);
    if Hits(before, queries[i].rect) then before.entry.value.1 else InactiveMargins(queries[i].screen, queries[i].rect)
  }

  // ---------- One frame ----------

  /** What a processed frame met: the crop in force, whether it was being learned again, the number
      of earlier consultations, and what came of it: active margins, and the rectangle detected
      with its confirmations. */
  datatype Processed = Processed(frame: Frame, crop: Option<ContentRect>, relearning: bool, asked: nat,
                                 active: bool, seen: Option<(ContentRect, nat)>)

  /** All the learner knows, with the history of its frames and consultations. */
  datatype Learner = Learner(crop: Option<ContentRect>, candidate: Option<(ContentRect, nat)>, copyBitsCount: nat,
                             activeFrames: nat, relearn: bool, previous: seq<byte>,
                             key: Option<(nat, nat)>, mode: Option<(nat, nat, nat)>,
                             log: seq<Processed>, queries: seq<Query>)

  /** Only an 8-bit screen is judged by its margins. */
  ghost function Quiet(queries: seq<Query>, n: nat, frame: Frame, rect: Option<ContentRect>)
    : (Option<ContentRect>, seq<Query>)
  {
    if rect.None? || frame.depth != 8 then (rect, queries)
    else
      var more := queries + [Asked(n, frame.screen, rect.value)];
      (if Answer(more, |queries|) then rect else None, more)
  }

  /** A crop of part of an 8-bit screen is judged on every frame without a dialog. */
  predicate Judged(crop: Option<ContentRect>, frame: Frame) {
    crop.Some? && crop.value != frame.Full() && !frame.dialog && frame.depth == 8
  }

  ghost function Judgement(queries: seq<Query>, n: nat, crop: Option<ContentRect>, frame: Frame): (bool, seq<Query>) {
    if !Judged(crop, frame) then (false, queries)
    else
      var more := queries + [Asked(n, frame.screen, crop.value)];
      (!Answer(more, |queries|), more)
  }

  /** What the guest says outright: its screen frame, and while learning its declared port. */
  ghost function Authority(queries: seq<Query>, n: nat, frame: Frame, relearn: bool, learning: bool)
    : (Option<ContentRect>, seq<Query>)
  {
    var (framed, more) :=
      if relearn then Quiet(queries, n, frame, frame.FramedRect()) else (frame.FramedRect(), queries);
    if framed.None? && learning then Quiet(more, n, frame, frame.DeclaredRect()) else (framed, more)
  }

  /** The centred picture on a screen, if there is one. */
  ghost function Centre(screen: Screen): (centre: Option<ContentRect>)
    ensures centre.Some? ==> DetectedOn(screen, centre.value)
    ensures centre.None? ==> forall rect :: !DetectedOn(screen, rect)
  {
    if exists rect :: DetectedOn(screen, rect) then
      var rect :| DetectedOn(screen, rect);
      Some(rect)
    else None
  }

  lemma CentreIs(screen: Screen, rect: ContentRect)
    requires DetectedOn(screen, rect)
    ensures Centre(screen) == Some(rect)
  {
    DetectedIsUnique(screen.Rows(), screen.width, rect, Centre(screen).value);
  }

  datatype Inference = Inference(seen: Option<(ContentRect, nat)>, queries: seq<Query>, copyBitsCount: nat,
                                 previous: seq<byte>)

  function Confirmations(relearn: bool, count: nat, before: nat): nat {
    if relearn then 1 else Min(Max(count - before, 0), COUNTER_LIMIT)
  }

  /** New CopyBits evidence first, then the detector if the framebuffer changed. */
  ghost function Inferred(queries: seq<Query>, n: nat, frame: Frame, relearn: bool, copyBitsCount: nat,
                          previous: seq<byte>)
    : Inference
  {
    var (rect, more) :=
      if frame.copyBitsCount != copyBitsCount then Quiet(queries, n, frame, frame.CopyBitsRect()) else (None, queries);
    if rect.Some?
    then Inference(Some((rect.value, Confirmations(relearn, frame.copyBitsCount, copyBitsCount))), more,
                   frame.copyBitsCount, previous)
    else if frame.depth == 8 && previous != frame.screen.pixels
    then Inference(if Centre(frame.screen).Some? then Some((Centre(frame.screen).value, 1)) else None, more,
                   frame.copyBitsCount, frame.screen.pixels)
    else Inference(None, more, frame.copyBitsCount, previous)
  }

  function NextCandidate(candidate: Option<(ContentRect, nat)>, seen: Option<(ContentRect, nat)>, relearn: bool)
    : Option<(ContentRect, nat)>
  {
    if seen.None? then (if relearn then None else candidate)
    else if candidate.Some? && candidate.value.0 == seen.value.0
    then Some((seen.value.0, Min(candidate.value.1 + seen.value.1, COUNTER_LIMIT)))
    else seen
  }

  function Accepted(candidate: Option<(ContentRect, nat)>, seen: Option<(ContentRect, nat)>,
                    relearn: bool): Option<ContentRect> {
    if seen.Some? && candidate.Some? && candidate.value.1 >= (if relearn then RELEARN_CONFIRMATIONS else CONFIRMATIONS)
    then Some(candidate.value.0) else None
  }

  /** What one frame's evidence amounts to. */
  datatype Weight = Weight(accepted: Option<ContentRect>, candidate: Option<(ContentRect, nat)>, inference: Inference)

  ghost function Weighed(s: Learner, queries: seq<Query>, frame: Frame, invalidated: bool): Weight {
    var learning := s.crop.None? || s.relearn;
    var (authority, more) := Authority(queries, |s.log|, frame, s.relearn, learning);
    var allowed := !s.relearn || !frame.dialog;
    var outright :=
      if !invalidated && s.relearn && allowed && authority.Some? then Some((authority.value, 1)) else None;
    var taken := if invalidated then Some(frame.Full()) else if s.relearn then None else authority;
    if learning && taken.None? then
      var inference := if outright.None? && allowed
        then Inferred(more, |s.log|, frame, s.relearn, s.copyBitsCount, s.previous)
        else Inference(outright, more, s.copyBitsCount, s.previous);
      var next := NextCandidate(s.candidate, inference.seen, s.relearn);
      Weight(Accepted(next, inference.seen, s.relearn), next, inference)
    else Weight(taken, s.candidate, Inference(outright, more, s.copyBitsCount, s.previous))
  }

  function ActiveCount(before: nat, active: bool): nat { if active then Min(before + 1, COUNTER_LIMIT) else 0 }

  /** A new crop resets the candidate and the counter; a fall-back to the whole screen starts
      learning again. */
  function Concluded(s: Learner, frame: Frame, active: bool, count: nat, invalidated: bool, w: Weight): Learner {
    var changed := w.accepted.Some? && w.accepted != s.crop;
    var entry := Processed(frame, s.crop, s.relearn, |s.queries|, active, w.inference.seen);
    Learner(if changed then w.accepted else s.crop, if changed then None else w.candidate, w.inference.copyBitsCount,
            if changed then 0 else count, if changed then invalidated else s.relearn,
            w.inference.previous, s.key, s.mode,
            s.log + [entry], w.inference.queries)
  }

  ghost function Learned(s: Learner, frame: Frame): Learner {
    var (active, queries) := Judgement(s.queries, |s.log|, s.crop, frame);
    var count := ActiveCount(s.activeFrames, active);
    var invalidated := active && count >= CONFIRMATIONS;
    Concluded(s, frame, active, count, invalidated, Weighed(s, queries, frame, invalidated))
  }

  lemma LearnedAs(s: Learner, frame: Frame, active: bool, queries: seq<Query>)
    requires (active, queries) == Judgement(s.queries, |s.log|, s.crop, frame)
    ensures var count := ActiveCount(s.activeFrames, active);
            var invalidated := active && count >= CONFIRMATIONS;
            Learned(s, frame)
                == Concluded(s, frame, active, count, invalidated, Weighed(s, queries, frame, invalidated))
  {
  }

  /** Another screen mode forgets everything learned. */
  function Entered(s: Learner, mode: (nat, nat, nat)): Learner {
    if s.mode == Some(mode) then s
    else Learner(None, None, 0, 0, false, [], s.key, Some(mode), s.log, s.queries + [Forgotten])
  }

  /** One captured frame; presenting the same frame again changes nothing. */
  ghost function Step(s: Learner, frame: Frame): Learner {
    if s.key == Some(frame.key) then s else Learned(Entered(s.(key := Some(frame.key)), frame.Mode()), frame)
  }

  /** A learner may start with a crop remembered for a screen mode. */
  function Start(remembered: Option<(ContentRect, (nat, nat, nat))>): Learner {
    match remembered
    case None => Learner(None, None, 0, 0, false, [], None, None, [], [])
    case Some((crop, mode)) => Learner(Some(crop), None, 0, 0, false, [], None, Some(mode), [], [])
  }

  /** The state after a run of frames. */
  ghost function After(start: Learner, frames: seq<Frame>): Learner {
    if frames == [] then start else Step(After(start, frames[..|frames| - 1]), frames[|frames| - 1])
  }
}
