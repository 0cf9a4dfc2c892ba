/** What every run of the crop learner keeps: a cached verdict rests on a recent histogram, the
    counters count agreeing frames, and the crop changes only on the evidence they stand for. */
module CropRuns {
  import opened Base
  import opened ContentMargins
  import opened CropLearning

  // ---------- Which histogram a verdict rests on ----------

  /** The consultation whose histogram the cache holds. */
  ghost function FilledAt(queries: seq<Query>): int {
    if queries == [] then -1
    else
      var n := |queries| - 1;
      if queries[n].Asked? && Hits(CacheAfter(queries[..n]), queries[n].rect) then FilledAt(queries[..n]) else n
  }

  /** Consultations `a` to `b` are all about one rectangle. */
  ghost predicate OnlyAbout(queries: seq<Query>, a: nat, b: nat, rect: ContentRect)
    requires b < |queries|
  {
    forall k :: a <= k <= b ==> queries[k].Asked? && queries[k].rect == rect
  }

  lemma {:induction false} CacheHolds(queries: seq<Query>)
    requires queries != [] && queries[|queries| - 1].Asked?
    ensures var origin, n := FilledAt(queries), |queries| - 1;
            && 0 <= origin <= n && OnlyAbout(queries, origin, n, queries[n].rect)
            && |queries| - origin <= MARGIN_REFRESH_FRAMES
            && CacheAfter(queries)
               == Cache(Some((queries[n].rect, InactiveMargins(queries[origin].screen, queries[n].rect))),
                                            MARGIN_REFRESH_FRAMES - (|queries| - origin))
  {
    var n := |queries| - 1;
    var before := queries[..n];
    if Hits(CacheAfter(before), queries[n].rect) {
      CacheHolds(before);
      assert forall k :: 0 <= k < n ==> before[k] == queries[k];
    }
  }

  /** The consultation whose histogram answers consultation `i`. */
  ghost function Source(queries: seq<Query>, i: nat): int
    requires i < |queries|
  {
    FilledAt(queries[..i + 1])
  }

  /** A verdict is the histogram's for the same rectangle, at most seven consultations ago, with
      only that rectangle asked about since. */
  lemma ReuseIsBounded(queries: seq<Query>, i: nat)
    requires i < |queries| && queries[i].Asked?
    ensures var origin := Source(queries, i);
            && 0 <= origin <= i < origin + MARGIN_REFRESH_FRAMES
            && OnlyAbout(queries, origin, i, queries[i].rect)
            && Answer(queries, i) == InactiveMargins(queries[origin].screen, queries[i].rect)
  {
    var upTo := queries[..i + 1];
    assert upTo[..i] == queries[..i];
    CacheHolds(upTo);
    if Hits(CacheAfter(queries[..i]), queries[i].rect) {
      CacheHolds(queries[..i]);
    }
    assert forall k :: 0 <= k <= i ==> upTo[k] == queries[k];
  }

  /** How many frames old the histogram behind a verdict is. */
  ghost function Age(queries: seq<Query>, i: nat): int
    requires i < |queries| && queries[i].Asked? && 0 <= Source(queries, i) < |queries|
             && queries[Source(queries, i)].Asked?
  {
    queries[i].frame - queries[Source(queries, i)].frame
  }

  /** A verdict is eight or more frames old exactly when the cache answers and was filled eight or
      more frames before. */
  lemma StaleExactly(queries: seq<Query>, i: nat)
    requires i < |queries| && queries[i].Asked?
    ensures 0 <= Source(queries, i) < |queries| && queries[Source(queries, i)].Asked?
    ensures var filled := FilledAt(queries[..i]);
            Age(queries, i) >= MARGIN_REFRESH_FRAMES <==>
              && Hits(CacheAfter(queries[..i]), queries[i].rect)
              && 0 <= filled < i && queries[filled].Asked?
              && queries[i].frame >= queries[filled].frame + MARGIN_REFRESH_FRAMES
  {
    ReuseIsBounded(queries, i);
    assert queries[..i + 1][..i] == queries[..i];
    if Hits(CacheAfter(queries[..i]), queries[i].rect) {
      var before := queries[..i];
      assert before != [];
      assert before[i - 1].Asked?;
      CacheHolds(before);
    }
  }

  // ---------- Runs of agreeing frames ----------

  datatype Mark = ActiveMargins(rect: ContentRect) | Relearned(rect: ContentRect)

  predicate Shows(entry: Processed, mark: Mark, mode: (nat, nat, nat)) {
    entry.frame.Mode() == mode &&
    match mark
    case ActiveMargins(rect) => entry.active && entry.crop == Some(rect)
    case Relearned(rect) => entry.relearning && entry.seen.Some? && entry.seen.value.0 == rect
  }

  /** For how many frames in a row, up to the last, the mark has held. */
  function Run(log: seq<Processed>, mark: Mark, mode: (nat, nat, nat)): (n: nat)
    ensures n <= |log|
  {
    if log == [] || !Shows(log[|log| - 1], mark, mode) then 0
    else Run(log[..|log| - 1], mark, mode) + 1
  }

  /** The last `n` frames all show the mark. */
  ghost predicate Stretch(log: seq<Processed>, mark: Mark, mode: (nat, nat, nat), n: nat) {
    n <= |log| && forall k :: |log| - n <= k < |log| ==> Shows(log[k], mark, mode)
  }

  lemma StretchStep(log: seq<Processed>, mark: Mark, mode: (nat, nat, nat), n: nat)
    requires 0 < n <= |log|
    ensures Stretch(log, mark, mode, n)
       <==> Shows(log[|log| - 1], mark, mode) && Stretch(log[..|log| - 1], mark, mode, n - 1)
  {
    var shorter := log[..|log| - 1];
    assert forall k :: 0 <= k < |shorter| ==> shorter[k] == log[k];
  }

  /** A run counts exactly the consecutive frames that show the mark. */
  lemma {:induction false} RunIsStretch(log: seq<Processed>, mark: Mark, mode: (nat, nat, nat), n: nat)
    ensures n <= Run(log, mark, mode) <==> Stretch(log, mark, mode, n)
  {
    if 0 < n <= |log| {
      RunIsStretch(log[..|log| - 1], mark, mode, n - 1);
      StretchStep(log, mark, mode, n);
    }
  }

  lemma RunStep(log: seq<Processed>, entry: Processed, mark: Mark, mode: (nat, nat, nat))
    ensures Run(log + [entry], mark, mode) == if Shows(entry, mark, mode) then Run(log, mark, mode) + 1 else 0
  {
    assert (log + [entry])[..|log|] == log;
  }

  /** The confirmations of a rectangle before a first crop: those of the last frames in the mode
      without a crop, back to the one that showed another rectangle. Frames that show none count
      nothing. */
  function Tally(log: seq<Processed>, rect: ContentRect, mode: (nat, nat, nat)): nat {
    if log == [] then 0
    else
      var last := log[|log| - 1];
      if last.frame.Mode() != mode || last.crop.Some? || last.relearning then 0
      else if last.seen.None? then Tally(log[..|log| - 1], rect, mode)
      else if last.seen.value.0 == rect then Tally(log[..|log| - 1], rect, mode) + last.seen.value.1
      else 0
  }

  predicate Confirmed(log: seq<Processed>, rect: ContentRect, mode: (nat, nat, nat)) {
    Tally(log, rect, mode) >= CONFIRMATIONS
  }

  lemma TallyStep(log: seq<Processed>, entry: Processed, rect: ContentRect, mode: (nat, nat, nat))
    ensures Tally(log + [entry], rect, mode) ==
      if entry.frame.Mode() != mode || entry.crop.Some? || entry.relearning then 0
      else if entry.seen.None? then Tally(log, rect, mode)
      else if entry.seen.value.0 == rect then Tally(log, rect, mode) + entry.seen.value.1 else 0
  {
    assert (log + [entry])[..|log|] == log;
  }

  // ---------- What every state keeps ----------

  /** While learning again: the rectangle the last frame showed, and for how many frames in a row. */
  ghost predicate CandidateIsRun(candidate: Option<(ContentRect, nat)>, log: seq<Processed>, mode: (nat, nat, nat)) {
    match candidate
    case None => forall rect :: Run(log, Relearned(rect), mode) == 0
    case Some(c) => 0 < c.1 == Run(log, Relearned(c.0), mode) < RELEARN_CONFIRMATIONS
  }

  /** Before a first crop: the rectangle with confirmations, and how many. */
  ghost predicate CandidateIsTally(candidate: Option<(ContentRect, nat)>, log: seq<Processed>, mode: (nat, nat, nat)) {
    && (candidate.Some? ==> candidate.value.1 == Tally(log, candidate.value.0, mode) < CONFIRMATIONS)
    && forall rect :: (candidate.None? || rect != candidate.value.0) ==> Tally(log, rect, mode) == 0
  }

  /** The crop lies on the screen; learning again means showing all of it; the counters count the
      frames that agree. */
  ghost predicate SoundIn(s: Learner, mode: (nat, nat, nat)) {
    && s.activeFrames < CONFIRMATIONS
    && match s.crop
       case None => !s.relearn && s.activeFrames == 0 && CandidateIsTally(s.candidate, s.log, mode)
       case Some(crop) =>
         && crop.Within(mode.0, mode.1) && s.activeFrames == Run(s.log, ActiveMargins(crop), mode)
         && if s.relearn then crop == FullScreen(mode.0, mode.1) && CandidateIsRun(s.candidate, s.log, mode)
            else s.candidate == None
  }

  ghost predicate Sound(s: Learner) {
    && (s.log != [] ==> s.mode == Some(s.log[|s.log| - 1].frame.Mode()))
    && match s.mode
       case None => s.crop == None && s.candidate == None && s.activeFrames == 0 && !s.relearn && s.log == []
       case Some(mode) => SoundIn(s, mode)
  }

  lemma EnteredIsSound(s: Learner, mode: (nat, nat, nat))
    requires Sound(s)
    ensures var e := Entered(s, mode); e.mode == Some(mode) && e.log == s.log && SoundIn(e, mode)
    ensures Entered(s, mode).crop.None? || Entered(s, mode) == s
  {
  }

  /** Evidence never proposes the whole screen. */
  lemma EvidenceIsCrop(frame: Frame, rect: ContentRect)
    requires rect in frame.Evidence()
    ensures rect.Within(frame.screen.width, frame.screen.height) && rect != frame.Full()
  {
  }

  /** What weighing yields, case by case. */
  ghost predicate Fair(s: Learner, w: Weight, frame: Frame, invalidated: bool, authority: Option<ContentRect>) {
    var seen := w.inference.seen;
    && (seen.Some? ==> seen.value.0 in frame.Evidence())
    && (authority.Some? ==> authority.value in frame.Evidence())
    && if invalidated then w.accepted == Some(frame.Full()) && seen == None && w.candidate == s.candidate
       else if s.relearn then
         && (seen.Some? ==> seen.value.1 == 1)
         && w.candidate == NextCandidate(s.candidate, seen, true) && w.accepted == Accepted(w.candidate, seen, true)
       else if authority.Some? then w.accepted == authority && w.candidate == s.candidate && seen == None
       else if s.crop.Some? then w.accepted == None && w.candidate == s.candidate && seen == None
       else w.candidate == NextCandidate(s.candidate, seen, false) && w.accepted == Accepted(w.candidate, seen, false)
  }

  lemma InferredIsEvidence(queries: seq<Query>, n: nat, frame: Frame, relearn: bool, copyBitsCount: nat,
                           previous: seq<byte>)
    ensures var seen := Inferred(queries, n, frame, relearn, copyBitsCount, previous).seen;
            seen.Some? ==> seen.value.0 in frame.Evidence() && (relearn ==> seen.value.1 == 1)
  {
  }

  lemma WeighedIsFair(s: Learner, queries: seq<Query>, frame: Frame, invalidated: bool)
    requires invalidated ==> !s.relearn
    requires s.relearn ==> s.crop.Some?
    ensures Fair(s, Weighed(s, queries, frame, invalidated), frame, invalidated,
                 Authority(queries, |s.log|, frame, s.relearn, s.crop.None? || s.relearn).0)
  {
    var (authority, more) := Authority(queries, |s.log|, frame, s.relearn, s.crop.None? || s.relearn);
    InferredIsEvidence(more, |s.log|, frame, s.relearn, s.copyBitsCount, s.previous);
  }

  // ---------- One frame keeps it ----------

  lemma CandidateStep(candidate: Option<(ContentRect, nat)>, seen: Option<(ContentRect, nat)>,
                      log: seq<Processed>, entry: Processed, mode: (nat, nat, nat))
    requires CandidateIsRun(candidate, log, mode)
    requires entry.frame.Mode() == mode && entry.relearning && entry.seen == seen && (seen.Some? ==> seen.value.1 == 1)
    ensures var next := NextCandidate(candidate, seen, true);
      match next
      case None => CandidateIsRun(next, log + [entry], mode)
      case Some(c) =>
        && 0 < c.1 == Run(log + [entry], Relearned(c.0), mode) <= RELEARN_CONFIRMATIONS
        && forall rect :: rect != c.0 ==> Run(log + [entry], Relearned(rect), mode) == 0
  {
    forall rect ensures Run(log + [entry], Relearned(rect), mode)
                     == if seen.Some? && seen.value.0 == rect then Run(log, Relearned(rect), mode) + 1 else 0 {
      RunStep(log, entry, Relearned(rect), mode);
    }
    if candidate.Some? && seen.Some? && candidate.value.0 != seen.value.0 {
      assert Run(log, Relearned(candidate.value.0), mode) > 0;
      assert Run(log, Relearned(seen.value.0), mode) == 0;
    }
  }

  lemma TallyCandidate(candidate: Option<(ContentRect, nat)>, seen: Option<(ContentRect, nat)>,
                       log: seq<Processed>, entry: Processed, mode: (nat, nat, nat))
    requires CandidateIsTally(candidate, log, mode)
    requires entry.frame.Mode() == mode && entry.crop.None? && !entry.relearning && entry.seen == seen
    requires seen.Some? ==> seen.value.1 <= COUNTER_LIMIT
    ensures var next := NextCandidate(candidate, seen, false);
      && (next.Some? ==> next.value.1 == Min(Tally(log + [entry], next.value.0, mode), COUNTER_LIMIT))
      && forall rect :: (next.None? || rect != next.value.0) ==> Tally(log + [entry], rect, mode) == 0
  {
    forall rect ensures Tally(log + [entry], rect, mode) ==
        if seen.None? then Tally(log, rect, mode)
        else if seen.value.0 == rect then Tally(log, rect, mode) + seen.value.1 else 0 {
      TallyStep(log, entry, rect, mode);
    }
  }

  lemma NoRun(log: seq<Processed>, entry: Processed, mode: (nat, nat, nat))
    requires !entry.relearning
    ensures CandidateIsRun(None, log + [entry], mode)
  {
    forall rect ensures Run(log + [entry], Relearned(rect), mode) == 0 {
      RunStep(log, entry, Relearned(rect), mode);
    }
  }

  /** What a frame may do to the crop: fall back to the whole screen, exactly at the fifth frame in
      a row with active margins; while learning again, take a rectangle exactly at its 120th frame
      in a row; before a first crop, take the guest's own rectangle, or one exactly when its
      confirmations reach five; otherwise keep the crop, unless the guest draws a screen frame. */
  ghost predicate Outcome(s: Learner, t: Learner, mode: (nat, nat, nat), authority: Option<ContentRect>) {
    var fallBack := s.crop.Some? && Run(t.log, ActiveMargins(s.crop.value), mode) >= CONFIRMATIONS;
    if fallBack then t.crop == Some(FullScreen(mode.0, mode.1)) != s.crop && t.relearn
    else if s.relearn then
      if t.relearn then t.crop == s.crop && forall rect :: Run(t.log, Relearned(rect), mode) < RELEARN_CONFIRMATIONS
      else t.crop.Some? && t.crop != s.crop && Run(t.log, Relearned(t.crop.value), mode) == RELEARN_CONFIRMATIONS
    else
      && !t.relearn
      && if authority.Some? then t.crop == authority
         else if s.crop.Some? then t.crop == s.crop
         else if t.crop.Some? then Confirmed(t.log, t.crop.value, mode)
         else forall rect :: !Confirmed(t.log, rect, mode)
  }

  lemma FallBackStep(s: Learner, frame: Frame, w: Weight, authority: Option<ContentRect>)
    requires SoundIn(s, frame.Mode()) && Fair(s, w, frame, true, authority)
    requires Judged(s.crop, frame) && s.activeFrames + 1 >= CONFIRMATIONS
    ensures var t := Concluded(s, frame, true, s.activeFrames + 1, true, w);
            SoundIn(t, frame.Mode()) && Outcome(s, t, frame.Mode(), authority)
  {
    var mode := frame.Mode();
    var t := Concluded(s, frame, true, s.activeFrames + 1, true, w);
    var entry := t.log[|s.log|];
    RunStep(s.log, entry, ActiveMargins(s.crop.value), mode);
    RunStep(s.log, entry, ActiveMargins(frame.Full()), mode);
    NoRun(s.log, entry, mode);
  }

  lemma RelearnStep(s: Learner, frame: Frame, w: Weight, authority: Option<ContentRect>)
    requires SoundIn(s, frame.Mode()) && s.relearn && Fair(s, w, frame, false, authority)
    ensures var t := Concluded(s, frame, false, 0, false, w);
            SoundIn(t, frame.Mode()) && Outcome(s, t, frame.Mode(), authority)
  {
    var mode, seen := frame.Mode(), w.inference.seen;
    var t := Concluded(s, frame, false, 0, false, w);
    var entry := t.log[|s.log|];
    RunStep(s.log, entry, ActiveMargins(s.crop.value), mode);
    CandidateStep(s.candidate, seen, s.log, entry, mode);
    if seen.Some? {
      EvidenceIsCrop(frame, seen.value.0);
      RunStep(s.log, entry, ActiveMargins(seen.value.0), mode);
    }
  }

  lemma KeepStep(s: Learner, frame: Frame, active: bool, w: Weight, authority: Option<ContentRect>)
    requires SoundIn(s, frame.Mode()) && !s.relearn && Fair(s, w, frame, false, authority)
    requires s.crop.Some? && (active ==> s.activeFrames + 1 < CONFIRMATIONS)
    ensures var t := Concluded(s, frame, active, ActiveCount(s.activeFrames, active), false, w);
            SoundIn(t, frame.Mode()) && Outcome(s, t, frame.Mode(), authority)
  {
    var mode := frame.Mode();
    var t := Concluded(s, frame, active, ActiveCount(s.activeFrames, active), false, w);
    var entry := t.log[|s.log|];
    RunStep(s.log, entry, ActiveMargins(s.crop.value), mode);
    if authority.Some? {
      EvidenceIsCrop(frame, authority.value);
      RunStep(s.log, entry, ActiveMargins(authority.value), mode);
    }
  }

  lemma FirstStep(s: Learner, frame: Frame, w: Weight, authority: Option<ContentRect>)
    requires SoundIn(s, frame.Mode()) && s.crop.None? && Fair(s, w, frame, false, authority)
    requires w.inference.seen.Some? ==> w.inference.seen.value.1 <= COUNTER_LIMIT
    ensures var t := Concluded(s, frame, false, 0, false, w);
            SoundIn(t, frame.Mode()) && Outcome(s, t, frame.Mode(), authority)
  {
    var mode, seen := frame.Mode(), w.inference.seen;
    var t := Concluded(s, frame, false, 0, false, w);
    var entry := t.log[|s.log|];
    if authority.Some? {
      EvidenceIsCrop(frame, authority.value);
      RunStep(s.log, entry, ActiveMargins(authority.value), mode);
    } else {
      TallyCandidate(s.candidate, seen, s.log, entry, mode);
      if seen.Some? {
        EvidenceIsCrop(frame, seen.value.0);
        RunStep(s.log, entry, ActiveMargins(seen.value.0), mode);
      }
    }
  }

  lemma ConfirmationsFit(s: Learner, queries: seq<Query>, frame: Frame, invalidated: bool)
    ensures var seen := Weighed(s, queries, frame, invalidated).inference.seen;
            seen.Some? ==> seen.value.1 <= COUNTER_LIMIT
  {
  }

  /** What the guest says outright on a frame. */
  ghost function AuthorityOn(s: Learner, frame: Frame): Option<ContentRect> {
    Authority(Judgement(s.queries, |s.log|, s.crop, frame).1, |s.log|, frame, s.relearn, s.crop.None? || s.relearn).0
  }

  lemma LearnedIsSound(s: Learner, frame: Frame)
    requires s.mode == Some(frame.Mode()) && SoundIn(s, frame.Mode())
    ensures Sound(Learned(s, frame)) && Outcome(s, Learned(s, frame), frame.Mode(), AuthorityOn(s, frame))
  {
    var (active, queries) := Judgement(s.queries, |s.log|, s.crop, frame);
    LearnedAs(s, frame, active, queries);
    var invalidated := active && ActiveCount(s.activeFrames, active) >= CONFIRMATIONS;
    var w, authority := Weighed(s, queries, frame, invalidated), AuthorityOn(s, frame);
    WeighedIsFair(s, queries, frame, invalidated);
    ConfirmationsFit(s, queries, frame, invalidated);
    if invalidated {
      FallBackStep(s, frame, w, authority);
    } else if s.relearn {
      RelearnStep(s, frame, w, authority);
    } else if s.crop.Some? {
      KeepStep(s, frame, active, w, authority);
    } else {
      FirstStep(s, frame, w, authority);
    }
  }

  /** Every frame: the state stays sound, and the crop changes only as the counters allow. */
  lemma StepIsSound(s: Learner, frame: Frame)
    requires Sound(s)
    ensures Sound(Step(s, frame))
    ensures s.key != Some(frame.key) ==>
              var e := Entered(s.(key := Some(frame.key)), frame.Mode());
              Outcome(e, Step(s, frame), frame.Mode(), AuthorityOn(e, frame))
  {
    if s.key != Some(frame.key) {
      var keyed := s.(key := Some(frame.key));
      EnteredIsSound(keyed, frame.Mode());
      LearnedIsSound(Entered(keyed, frame.Mode()), frame);
    }
  }
}
