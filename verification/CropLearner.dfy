/** The desktop runner's crop learner (systemless.rs, `present_frame`): its fields, and its work on
    one captured frame, step by step. */
module CropLearners {
  import opened Base
  import opened ContentMargins
  import opened CentredContent
  import opened CropLearning

  class CropLearner {
    var contentRect: Option<ContentRect>
    var candidate: Option<(ContentRect, nat)>
    var copyBitsCount: nat
    var activeMarginFrames: nat
    var cache: Cache
    var relearn: bool
    var previousFrame: seq<byte>
    var frameKey: Option<(nat, nat)>
    var screenMode: Option<(nat, nat, nat)>

    /** The frames processed and the margins asked about so far. */
    ghost var log: seq<Processed>
    ghost var queries: seq<Query>

    ghost function State(): Learner
      reads this
    {
      Learner(contentRect, candidate, copyBitsCount, activeMarginFrames, relearn, previousFrame, frameKey, screenMode,
              log, queries)
    }

    ghost predicate Valid()
      reads this
    {
      cache == CacheAfter(queries)
    }

    /** A crop remembered from an earlier run belongs to a screen mode. */
    constructor (remembered: Option<(ContentRect, (nat, nat, nat))>)
      ensures Valid() && State() == Start(remembered)
    {
      contentRect := if remembered.Some? then Some(remembered.value.0) else None;
      screenMode := if remembered.Some? then Some(remembered.value.1) else None;
      candidate, copyBitsCount, activeMarginFrames := None, 0, 0;
      cache, relearn, previousFrame, frameKey := EMPTY_CACHE, false, [], None;
      log, queries := [], [];
    }

    method ChangeMode(mode: (nat, nat, nat))
      requires Valid()
      modifies this
      ensures Valid() && State() == Entered(old(State()), mode)
    {
      if screenMode != Some(mode) {
        screenMode := Some(mode);
        contentRect, candidate, copyBitsCount, activeMarginFrames := None, None, 0, 0;
        cache, relearn, previousFrame := EMPTY_CACHE, false, [];
        queries := queries + [Forgotten];
      }
    }

    /** The margin verdict, fresh or cached. */
    method HasInactive(screen: Screen, rect: ContentRect) returns (verdict: bool)
      requires Valid()
      modifies this`cache, this`queries
      ensures Valid() && queries == old(queries) + [Asked(|log|, screen, rect)]
      ensures verdict == Answer(queries, |old(queries)|)
    {
      queries := queries + [Asked(|log|, screen, rect)];
      assert queries[..|queries| - 1] == old(queries);
      if cache.entry.Some? && cache.entry.value.0 == rect && cache.refresh > 0 {
        cache := cache.(refresh := cache.refresh - 1);
        return cache.entry.value.1;
      }
      verdict := ContentMargins.HasInactiveMargins(screen, rect);
      cache := Cache(Some((rect, verdict)), MARGIN_REFRESH_FRAMES - 1);
    }

    method KeepQuiet(frame: Frame, rect: Option<ContentRect>) returns (kept: Option<ContentRect>)
      requires Valid()
      modifies this`cache, this`queries
      ensures Valid() && (kept, queries) == Quiet(old(queries), |log|, frame, rect)
    {
      if rect.None? || frame.depth != 8 {
        return rect;
      }
      var quiet := HasInactive(frame.screen, rect.value);
      kept := if quiet then rect else None;
    }

    /** Whether the guest draws outside the crop in force. */
    method ActiveMarginCrop(frame: Frame) returns (active: bool)
      requires Valid()
      modifies this`cache, this`queries
      ensures Valid() && (active, queries) == Judgement(old(queries), |log|, contentRect, frame)
    {
      if contentRect.None? || contentRect.value == frame.Full() || frame.dialog || frame.depth != 8 {
        return false;
      }
      var quiet := HasInactive(frame.screen, contentRect.value);
      active := !quiet;
    }

    method Authoritative(frame: Frame, learning: bool) returns (rect: Option<ContentRect>)
      requires Valid()
      modifies this`cache, this`queries
      ensures Valid() && (rect, queries) == Authority(old(queries), |log|, frame, relearn, learning)
    {
      rect := frame.FramedRect();
      if relearn {
        rect := KeepQuiet(frame, rect);
      }
      if rect.None? && learning {
        rect := KeepQuiet(frame, frame.DeclaredRect());
      }
    }

    /** What this frame's drawing suggests, with how many confirmations it counts for. */
    method Infer(frame: Frame) returns (seen: Option<(ContentRect, nat)>)
      requires Valid()
      modifies this`cache, this`queries, this`copyBitsCount, this`previousFrame
      ensures Valid()
      ensures Inference(seen, queries, copyBitsCount, previousFrame)
           == Inferred(old(queries), |log|, frame, relearn, old(copyBitsCount), old(previousFrame))
    {
      seen := None;
      if frame.copyBitsCount != copyBitsCount {
        var confirmations := Confirmations(relearn, frame.copyBitsCount, copyBitsCount);
        copyBitsCount := frame.copyBitsCount;
        var rect := KeepQuiet(frame, frame.CopyBitsRect());
        seen := if rect.Some? then Some((rect.value, confirmations)) else None;
      }
      if seen == None && frame.depth == 8 && previousFrame != frame.screen.pixels {
        seen := Detect(frame.screen);
        previousFrame := frame.screen.pixels;
      }
    }

    method Detect(screen: Screen) returns (seen: Option<(ContentRect, nat)>)
      ensures seen == if Centre(screen).Some? then Some((Centre(screen).value, 1)) else None
    {
      var rect := DetectCentred(screen);
      if rect.Some? {
        CentreIs(screen, rect.value);
      }
      seen := if rect.Some? then Some((rect.value, 1)) else None;
    }

    method Confirm(seen: Option<(ContentRect, nat)>) returns (accepted: Option<ContentRect>)
      modifies this`candidate
      ensures candidate == NextCandidate(old(candidate), seen, relearn)
      ensures accepted == Accepted(candidate, seen, relearn)
    {
      accepted := None;
      if seen.Some? {
        var (rect, confirmations) := seen.value;
        candidate := if candidate.Some? && candidate.value.0 == rect
                     then Some((rect, Min(candidate.value.1 + confirmations, COUNTER_LIMIT)))
                     else Some((rect, confirmations));
        var required := if relearn then RELEARN_CONFIRMATIONS else CONFIRMATIONS;
        if candidate.value.1 >= required {
          accepted := Some(rect);
        }
      } else if relearn {
        candidate := None;
      }
    }

    /** Weighs the evidence of one frame: a rectangle to take, and what was detected. */
    method Weigh(frame: Frame, invalidated: bool, ghost s: Learner)
      returns (accepted: Option<ContentRect>, seen: Option<(ContentRect, nat)>)
      requires Valid() && s.crop == contentRect && s.candidate == candidate && s.copyBitsCount == copyBitsCount
      requires s.relearn == relearn && s.previous == previousFrame && s.log == log
      modifies this`cache, this`queries, this`copyBitsCount, this`previousFrame, this`candidate
      ensures Valid()
      ensures Weight(accepted, candidate, Inference(seen, queries, copyBitsCount, previousFrame))
           == Weighed(s, old(queries), frame, invalidated)
    {
      var learning := contentRect.None? || relearn;
      var authoritative := Authoritative(frame, learning);
      accepted := if invalidated then Some(frame.Full()) else None;
      var allowed := !relearn || !frame.dialog;
      seen := None;
      if !invalidated {
        if !relearn {
          accepted := authoritative;
        } else if allowed && authoritative.Some? {
          seen := Some((authoritative.value, 1));
        }
      }
      if learning && accepted.None? {
        if seen == None && allowed {
          seen := Infer(frame);
        }
        accepted := Confirm(seen);
      }
    }

    /** A captured frame. A new crop resets the candidate and the counter; a fall-back to the whole
        screen starts learning again. */
    method Process(frame: Frame)
      requires Valid()
      modifies this
      ensures Valid() && State() == Step(old(State()), frame)
    {
      if frameKey == Some(frame.key) {
        return;
      }
      frameKey := Some(frame.key);
      ChangeMode(frame.Mode());
      Learn(frame);
    }

    method Learn(frame: Frame)
      requires Valid()
      modifies this
      ensures Valid() && State() == Learned(old(State()), frame)
    {
      ghost var s := State();
      var active := ActiveMarginCrop(frame);
      activeMarginFrames := if active then Min(activeMarginFrames + 1, COUNTER_LIMIT) else 0;
      LearnedAs(s, frame, active, queries);
      Decide(frame, active, active && activeMarginFrames >= CONFIRMATIONS, s);
    }

    method Decide(frame: Frame, ghost active: bool, invalidated: bool, ghost s: Learner)
      requires Valid() && s.crop == contentRect && s.candidate == candidate && s.copyBitsCount == copyBitsCount
      requires s.relearn == relearn && s.previous == previousFrame && s.log == log && s.key == frameKey
               && s.mode == screenMode
      modifies this
      ensures Valid()
      ensures State()
              == Concluded(s, frame, active, old(activeMarginFrames), invalidated,
                           Weighed(s, old(queries), frame, invalidated))
    {
      var accepted, seen := Weigh(frame, invalidated, s);
      Conclude(frame, active, invalidated, accepted, seen, s,
               Weight(accepted, candidate, Inference(seen, queries, copyBitsCount, previousFrame)));
    }

    method Conclude(frame: Frame, ghost active: bool, invalidated: bool, accepted: Option<ContentRect>,
                    ghost seen: Option<(ContentRect, nat)>, ghost s: Learner, ghost w: Weight)
      requires w == Weight(accepted, candidate, Inference(seen, queries, copyBitsCount, previousFrame))
      requires s.crop == contentRect && s.relearn == relearn && s.log == log && s.key == frameKey
               && s.mode == screenMode
      modifies this`contentRect, this`candidate, this`activeMarginFrames, this`relearn, this`log
      ensures State() == Concluded(s, frame, active, old(activeMarginFrames), invalidated, w)
    {
      log := log + [Processed(frame, contentRect, relearn, |s.queries|, active, seen)];
      if accepted.Some? && accepted != contentRect {
        contentRect, candidate, activeMarginFrames := accepted, None, 0;
        relearn := invalidated;
      }
    }
  }
}
