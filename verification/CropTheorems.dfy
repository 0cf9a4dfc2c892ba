/** Theorems about every run of the crop learner, from its start over any captured frames. */
module CropTheorems {
  import opened Base
  import opened ContentMargins
  import opened CropLearners
  import opened CropLearning
  import opened CropRuns

  // ---------- The history is truthful ----------

  /** Consultations come in frame order, each about the screen of its frame. */
  ghost predicate AskedInOrder(log: seq<Processed>, queries: seq<Query>) {
    && (forall k :: 0 <= k < |queries| && queries[k].Asked? ==>
          queries[k].frame < |log| && queries[k].screen == log[queries[k].frame].frame.screen)
    && forall j, k :: 0 <= j <= k < |queries| && queries[j].Asked? && queries[k].Asked? ==>
         queries[j].frame <= queries[k].frame
  }

  /** A frame is marked active exactly when its crop was judged and the verdict was not quiet; what
      it showed was evidence on that frame. */
  ghost predicate TruthfulEntry(entry: Processed, i: nat, queries: seq<Query>) {
    && (entry.seen.Some? ==> entry.seen.value.0 in entry.frame.Evidence())
    && if Judged(entry.crop, entry.frame) then
         && entry.asked < |queries| && queries[entry.asked] == Asked(i, entry.frame.screen, entry.crop.value)
         && (entry.active <==> !Answer(queries, entry.asked))
       else !entry.active
  }

  ghost predicate Truthful(log: seq<Processed>, queries: seq<Query>) {
    AskedInOrder(log, queries) && forall i :: 0 <= i < |log| ==> TruthfulEntry(log[i], i, queries)
  }

  /** More consultations, all about the screen of frame `n`. */
  ghost predicate Extends(queries: seq<Query>, more: seq<Query>, n: nat, screen: Screen) {
    && queries <= more
    && forall k :: |queries| <= k < |more| ==> more[k].Asked? && more[k].frame == n && more[k].screen == screen
  }

  lemma ExtendsTwice(a: seq<Query>, b: seq<Query>, c: seq<Query>, n: nat, screen: Screen)
    requires Extends(a, b, n, screen) && Extends(b, c, n, screen)
    ensures Extends(a, c, n, screen)
  {
    assert forall k :: 0 <= k < |b| ==> b[k] == c[k];
  }

  lemma QuietExtends(queries: seq<Query>, n: nat, frame: Frame, rect: Option<ContentRect>)
    ensures Extends(queries, Quiet(queries, n, frame, rect).1, n, frame.screen)
  {
  }

  lemma AuthorityExtends(queries: seq<Query>, n: nat, frame: Frame, relearn: bool, learning: bool)
    ensures Extends(queries, Authority(queries, n, frame, relearn, learning).1, n, frame.screen)
  {
    QuietExtends(queries, n, frame, frame.FramedRect());
    var first := if relearn then Quiet(queries, n, frame, frame.FramedRect()).1 else queries;
    QuietExtends(first, n, frame, frame.DeclaredRect());
    ExtendsTwice(queries, first, Authority(queries, n, frame, relearn, learning).1, n, frame.screen);
  }

  lemma InferredExtends(queries: seq<Query>, n: nat, frame: Frame, relearn: bool, copyBitsCount: nat,
                        previous: seq<byte>)
    ensures Extends(queries, Inferred(queries, n, frame, relearn, copyBitsCount, previous).queries, n, frame.screen)
  {
    QuietExtends(queries, n, frame, frame.CopyBitsRect());
  }

  lemma WeighedExtends(s: Learner, queries: seq<Query>, frame: Frame, invalidated: bool)
    ensures Extends(queries, Weighed(s, queries, frame, invalidated).inference.queries, |s.log|, frame.screen)
  {
    var n, learning := |s.log|, s.crop.None? || s.relearn;
    var more := Authority(queries, n, frame, s.relearn, learning).1;
    AuthorityExtends(queries, n, frame, s.relearn, learning);
    InferredExtends(more, n, frame, s.relearn, s.copyBitsCount, s.previous);
    ExtendsTwice(queries, more, Inferred(more, n, frame, s.relearn, s.copyBitsCount, s.previous).queries, n,
                 frame.screen);
  }

  lemma AnswerStays(queries: seq<Query>, more: seq<Query>, i: nat)
    requires queries <= more && i < |queries| && queries[i].Asked?
    ensures more[i] == queries[i] && Answer(more, i) == Answer(queries, i)
  {
    assert more[..i] == queries[..i];
  }

  lemma ExtendKeepsOrder(log: seq<Processed>, entry: Processed, queries: seq<Query>, more: seq<Query>)
    requires AskedInOrder(log, queries) && Extends(queries, more, |log|, entry.frame.screen)
    ensures AskedInOrder(log + [entry], more)
  {
    assert forall k :: 0 <= k < |queries| ==> more[k] == queries[k];
  }

  lemma ExtendKeepsEntry(entry: Processed, i: nat, queries: seq<Query>, more: seq<Query>)
    requires TruthfulEntry(entry, i, queries) && queries <= more
    ensures TruthfulEntry(entry, i, more)
  {
    if Judged(entry.crop, entry.frame) {
      AnswerStays(queries, more, entry.asked);
    }
  }

  lemma ForgetKeepsTruth(log: seq<Processed>, queries: seq<Query>)
    requires Truthful(log, queries)
    ensures Truthful(log, queries + [Forgotten])
  {
    forall i | 0 <= i < |log| ensures TruthfulEntry(log[i], i, queries + [Forgotten]) {
      ExtendKeepsEntry(log[i], i, queries, queries + [Forgotten]);
    }
  }

  lemma LearnedIsTruthful(s: Learner, frame: Frame)
    requires Truthful(s.log, s.queries) && (s.relearn ==> s.crop == Some(frame.Full()))
    ensures Truthful(Learned(s, frame).log, Learned(s, frame).queries)
  {
    var (active, queries) := Judgement(s.queries, |s.log|, s.crop, frame);
    LearnedAs(s, frame, active, queries);
    var invalidated := active && ActiveCount(s.activeFrames, active) >= CONFIRMATIONS;
    var t := Learned(s, frame);
    WeighedExtends(s, queries, frame, invalidated);
    WeighedIsFair(s, queries, frame, invalidated);
    ExtendsTwice(s.queries, queries, t.queries, |s.log|, frame.screen);
    ExtendKeepsOrder(s.log, t.log[|s.log|], s.queries, t.queries);
    forall i | 0 <= i < |t.log| ensures TruthfulEntry(t.log[i], i, t.queries) {
      if i < |s.log| {
        ExtendKeepsEntry(s.log[i], i, s.queries, t.queries);
      } else {
        NewEntry(s, frame, active, queries, t.log[i]);
        ExtendKeepsEntry(t.log[i], i, queries, t.queries);
      }
    }
  }

  lemma NewEntry(s: Learner, frame: Frame, active: bool, queries: seq<Query>, entry: Processed)
    requires (active, queries) == Judgement(s.queries, |s.log|, s.crop, frame)
    requires entry.frame == frame && entry.crop == s.crop && entry.asked == |s.queries| && entry.active == active
    requires entry.seen.Some? ==> entry.seen.value.0 in frame.Evidence()
    ensures TruthfulEntry(entry, |s.log|, queries)
  {
  }

  ghost predicate Good(s: Learner) { Sound(s) && Truthful(s.log, s.queries) }

  lemma StepIsGood(s: Learner, frame: Frame)
    requires Good(s)
    ensures Good(Step(s, frame))
  {
    StepIsSound(s, frame);
    if s.key != Some(frame.key) {
      var keyed := s.(key := Some(frame.key));
      EnteredIsSound(keyed, frame.Mode());
      ForgetKeepsTruth(s.log, s.queries);
      LearnedIsTruthful(Entered(keyed, frame.Mode()), frame);
    }
  }

  /** A remembered crop must lie on the screen it is remembered for. */
  predicate Usable(remembered: Option<(ContentRect, (nat, nat, nat))>) {
    remembered.Some? ==> remembered.value.0.Within(remembered.value.1.0, remembered.value.1.1)
  }

  /** Every state of every run. */
  lemma {:induction false} RunIsGood(remembered: Option<(ContentRect, (nat, nat, nat))>, frames: seq<Frame>)
    requires Usable(remembered)
    ensures Good(After(Start(remembered), frames))
  {
    if frames != [] {
      RunIsGood(remembered, frames[..|frames| - 1]);
      StepIsGood(After(Start(remembered), frames[..|frames| - 1]), frames[|frames| - 1]);
    }
  }

  // ---------- Theorems ----------

  /** Frame `i` drew outside its crop, by a histogram of that crop's margins at most seven
      consultations old, on the screen of that frame or an earlier one. */
  ghost predicate DrewOutside(s: Learner, i: nat, crop: ContentRect)
    requires i < |s.log|
  {
    var asked := s.log[i].asked;
    && s.log[i].crop == Some(crop) && Judged(s.log[i].crop, s.log[i].frame)
    && asked < |s.queries|
    && var origin := Source(s.queries, asked);
       && 0 <= origin <= asked < origin + MARGIN_REFRESH_FRAMES
       && OnlyAbout(s.queries, origin, asked, crop)
       && s.queries[origin].frame <= i
       && !InactiveMargins(s.log[s.queries[origin].frame].frame.screen, crop)
  }

  /** A frame is marked active exactly when the guest drew outside the crop on it. */
  lemma ActiveMeansDrewOutside(s: Learner, i: nat, crop: ContentRect)
    requires Truthful(s.log, s.queries) && i < |s.log|
    ensures AskedInOrder(s.log, s.queries)
    ensures s.log[i].active && s.log[i].crop == Some(crop) <==> DrewOutside(s, i, crop)
  {
    assert TruthfulEntry(s.log[i], i, s.queries);
    if s.log[i].active || DrewOutside(s, i, crop) {
      ReuseIsBounded(s.queries, s.log[i].asked);
    }
  }

  /** On each of the last `n` frames, all in the mode, the guest drew outside the crop. */
  ghost predicate DrewOutsideFor(s: Learner, crop: ContentRect, mode: (nat, nat, nat), n: nat) {
    && n <= |s.log|
    && forall i :: |s.log| - n <= i < |s.log| ==> s.log[i].frame.Mode() == mode && DrewOutside(s, i, crop)
  }

  lemma StretchRests(s: Learner, crop: ContentRect, mode: (nat, nat, nat), n: nat)
    requires Truthful(s.log, s.queries)
    ensures Stretch(s.log, ActiveMargins(crop), mode, n) <==> DrewOutsideFor(s, crop, mode, n)
  {
    if n <= |s.log| {
      forall i | |s.log| - n <= i < |s.log|
        ensures Shows(s.log[i], ActiveMargins(crop), mode) <==> s.log[i].frame.Mode() == mode && DrewOutside(s, i, crop)
      {
        ActiveMeansDrewOutside(s, i, crop);
      }
    }
  }

  /** In every run, the learner falls back to the whole screen exactly at the fifth frame in a row on
      which the guest drew outside the crop, each by a histogram at most seven consultations old. */
  lemma FallBackExactly(remembered: Option<(ContentRect, (nat, nat, nat))>, frames: seq<Frame>, frame: Frame)
    requires Usable(remembered) && After(Start(remembered), frames).key != Some(frame.key)
    ensures var mode := frame.Mode();
            var s := Entered(After(Start(remembered), frames).(key := Some(frame.key)), mode);
            var t := Step(After(Start(remembered), frames), frame);
            && (t.relearn && !s.relearn <==> s.crop.Some? && DrewOutsideFor(t, s.crop.value, mode, CONFIRMATIONS))
            && (t.relearn && !s.relearn ==> t.crop == Some(frame.Full()))
  {
    var mode, before := frame.Mode(), After(Start(remembered), frames);
    var s, t := Entered(before.(key := Some(frame.key)), mode), Step(before, frame);
    RunIsGood(remembered, frames);
    EnteredIsSound(before.(key := Some(frame.key)), mode);
    StepIsSound(before, frame);
    StepIsGood(before, frame);
    if s.crop.Some? {
      RunIsStretch(t.log, ActiveMargins(s.crop.value), mode, CONFIRMATIONS);
      StretchRests(t, s.crop.value, mode, CONFIRMATIONS);
    }
  }

  lemma StretchSeen(s: Learner, rect: ContentRect, mode: (nat, nat, nat), n: nat)
    requires Truthful(s.log, s.queries) && Stretch(s.log, Relearned(rect), mode, n)
    ensures forall i :: |s.log| - n <= i < |s.log| ==>
              s.log[i].frame.Mode() == mode && s.log[i].relearning && rect in s.log[i].frame.Evidence()
  {
    forall i | |s.log| - n <= i < |s.log|
      ensures s.log[i].frame.Mode() == mode && s.log[i].relearning && rect in s.log[i].frame.Evidence()
    {
      assert Shows(s.log[i], Relearned(rect), mode);
      assert TruthfulEntry(s.log[i], i, s.queries);
    }
  }

  /** In every run, learning again shows the whole screen and ends exactly when some rectangle has
      been detected on 120 frames in a row; that rectangle is taken, and each of those frames gave
      evidence for it. */
  lemma RelearnExactly(remembered: Option<(ContentRect, (nat, nat, nat))>, frames: seq<Frame>, frame: Frame)
    requires Usable(remembered) && After(Start(remembered), frames).key != Some(frame.key)
    ensures var mode := frame.Mode();
            var s := Entered(After(Start(remembered), frames).(key := Some(frame.key)), mode);
            var t := Step(After(Start(remembered), frames), frame);
            s.relearn ==>
              && s.crop == Some(frame.Full())
              && (!t.relearn <==> exists rect :: Stretch(t.log, Relearned(rect), mode, RELEARN_CONFIRMATIONS))
              && (!t.relearn ==>
                    && t.crop.Some? && Stretch(t.log, Relearned(t.crop.value), mode, RELEARN_CONFIRMATIONS)
                    && forall i :: |t.log| - RELEARN_CONFIRMATIONS <= i < |t.log| ==>
                         t.crop.value in t.log[i].frame.Evidence())
  {
    var mode, before := frame.Mode(), After(Start(remembered), frames);
    var s, t := Entered(before.(key := Some(frame.key)), mode), Step(before, frame);
    RunIsGood(remembered, frames);
    EnteredIsSound(before.(key := Some(frame.key)), mode);
    StepIsSound(before, frame);
    StepIsGood(before, frame);
    if s.relearn {
      forall rect ensures RELEARN_CONFIRMATIONS <= Run(t.log, Relearned(rect), mode)
                     <==> Stretch(t.log, Relearned(rect), mode, RELEARN_CONFIRMATIONS) {
        RunIsStretch(t.log, Relearned(rect), mode, RELEARN_CONFIRMATIONS);
      }
      if !t.relearn {
        StretchSeen(t, t.crop.value, mode, RELEARN_CONFIRMATIONS);
      }
    }
  }

  /** In every run, a first crop is the guest's own rectangle, or the one whose confirmations have
      just reached five; otherwise there is none yet. */
  lemma FirstCropExactly(remembered: Option<(ContentRect, (nat, nat, nat))>, frames: seq<Frame>, frame: Frame)
    requires Usable(remembered) && After(Start(remembered), frames).key != Some(frame.key)
    ensures var mode := frame.Mode();
            var s := Entered(After(Start(remembered), frames).(key := Some(frame.key)), mode);
            var t := Step(After(Start(remembered), frames), frame);
            s.crop.None? ==>
              if AuthorityOn(s, frame).Some? then t.crop == AuthorityOn(s, frame)
              else
                && (t.crop.Some? <==> exists rect :: Confirmed(t.log, rect, mode))
                && (t.crop.Some? ==> Confirmed(t.log, t.crop.value, mode))
  {
    var mode, before := frame.Mode(), After(Start(remembered), frames);
    var s, t := Entered(before.(key := Some(frame.key)), mode), Step(before, frame);
    RunIsGood(remembered, frames);
    EnteredIsSound(before.(key := Some(frame.key)), mode);
    StepIsSound(before, frame);
    if s.crop.None? {
      FirstOutcome(s, t, mode, AuthorityOn(s, frame));
    }
  }

  lemma FirstOutcome(s: Learner, t: Learner, mode: (nat, nat, nat), authority: Option<ContentRect>)
    requires Outcome(s, t, mode, authority) && s.crop.None? && !s.relearn
    ensures if authority.Some? then t.crop == authority
            else
              && (t.crop.Some? <==> exists rect :: Confirmed(t.log, rect, mode))
              && (t.crop.Some? ==> Confirmed(t.log, t.crop.value, mode))
  {
  }

  /** In every run, an accepted crop lies on the current screen. */
  lemma CropOnScreen(remembered: Option<(ContentRect, (nat, nat, nat))>, frames: seq<Frame>)
    requires Usable(remembered)
    ensures var s := After(Start(remembered), frames);
            s.crop.Some? ==> s.mode.Some? && s.crop.value.Within(s.mode.value.0, s.mode.value.1)
  {
    RunIsGood(remembered, frames);
  }

  // ---------- How old a verdict can be ----------

  /** Known before a frame is judged: its verdict will be eight or more frames old exactly when the
      cache answers for the crop and was filled eight or more frames before. */
  lemma StaleBeforeJudging(s: Learner, frame: Frame)
    requires Judged(s.crop, frame)
    ensures var queries := Judgement(s.queries, |s.log|, s.crop, frame).1;
            var i, filled := |s.queries|, FilledAt(s.queries);
            && 0 <= Source(queries, i) < |queries| && queries[Source(queries, i)].Asked?
            && (Age(queries, i) >= MARGIN_REFRESH_FRAMES <==>
                  && Hits(CacheAfter(s.queries), s.crop.value)
                  && 0 <= filled < i && queries[filled].Asked?
                  && |s.log| >= queries[filled].frame + MARGIN_REFRESH_FRAMES)
  {
    var queries := Judgement(s.queries, |s.log|, s.crop, frame).1;
    assert queries[..|s.queries|] == s.queries;
    StaleExactly(queries, |s.queries|);
  }

  /** A frame of the mode that reports no rectangle. */
  predicate Plain(frame: Frame, mode: (nat, nat, nat)) {
    frame.Mode() == mode && frame.framed.None? && frame.depth == 8
  }

  /** Keys of neighbouring frames differ. */
  ghost predicate NewKeys(frames: seq<Frame>) {
    forall k, k' :: 0 <= k && k' == k + 1 && k' < |frames| ==> frames[k].key != frames[k'].key
  }

  ghost predicate Cropped(s: Learner, mode: (nat, nat, nat), crop: ContentRect, queries: seq<Query>, n: nat) {
    s.crop == Some(crop) && !s.relearn && s.mode == Some(mode) && s.queries == queries && |s.log| == n
        && s.activeFrames == 0
  }

  lemma FirstJudged(mode: (nat, nat, nat), crop: ContentRect, quiet: Frame)
    requires Plain(quiet, mode) && crop != quiet.Full() && !quiet.dialog && InactiveMargins(quiet.screen, crop)
    ensures Cropped(Step(Start(Some((crop, mode))), quiet), mode, crop, [Asked(0, quiet.screen, crop)], 1)
    ensures Step(Start(Some((crop, mode))), quiet).key == Some(quiet.key)
  {
    var queries := [Asked(0, quiet.screen, crop)];
    assert queries[..0] == [];
    assert [] + queries == queries;
  }

  lemma DialogJudgesNothing(s: Learner, mode: (nat, nat, nat), crop: ContentRect, queries: seq<Query>, n: nat,
                            frame: Frame)
    requires Cropped(s, mode, crop, queries, n) && Plain(frame, mode) && frame.dialog && s.key != Some(frame.key)
    ensures Cropped(Step(s, frame), mode, crop, queries, n + 1) && Step(s, frame).key == Some(frame.key)
  {
  }

  lemma SecondAnswer(crop: ContentRect, quiet: Screen, busy: Screen, n: nat)
    requires InactiveMargins(quiet, crop)
    ensures var both := [Asked(0, quiet, crop), Asked(n, busy, crop)];
            Answer(both, 1) && Source(both, 1) == 0 && Age(both, 1) == n
  {
    var first, both := [Asked(0, quiet, crop)], [Asked(0, quiet, crop), Asked(n, busy, crop)];
    assert first[..0] == [] && both[..1] == first && both[..2] == both;
    assert CacheAfter(first) == Filled(crop, true);
    assert FilledAt(first) == 0;
  }

  lemma ReusedVerdict(s: Learner, mode: (nat, nat, nat), crop: ContentRect, quiet: Screen, n: nat, busy: Frame)
    requires Cropped(s, mode, crop, [Asked(0, quiet, crop)], n) && InactiveMargins(quiet, crop)
    requires Plain(busy, mode) && !busy.dialog && crop != busy.Full() && s.key != Some(busy.key)
    ensures var t := Step(s, busy);
            && |t.log| == n + 1 && t.log[n].frame == busy && t.log[n].crop == Some(crop) && !t.log[n].active
            && t.crop == Some(crop)
            && t.queries == [Asked(0, quiet, crop), Asked(n, busy.screen, crop)]
  {
    var first, both := [Asked(0, quiet, crop)], [Asked(0, quiet, crop), Asked(n, busy.screen, crop)];
    assert first + [Asked(n, busy.screen, crop)] == both;
    SecondAnswer(crop, quiet, busy.screen, n);
    var e := Entered(s.(key := Some(busy.key)), mode);
    LearnedAs(e, busy, false, both);
  }

  /** The failing run, through the learner itself: a frame judged quiet, any number of frames with a
      dialog, then a frame whose margins are active. The last is still judged quiet, by a histogram
      as many frames old. */
  method JudgeAcrossDialog(mode: (nat, nat, nat), crop: ContentRect, quiet: Frame, dialogs: seq<Frame>, busy: Frame)
    returns (learner: CropLearner)
    requires Plain(quiet, mode) && !quiet.dialog && Plain(busy, mode) && !busy.dialog && crop != quiet.Full()
    requires forall k :: 0 <= k < |dialogs| ==> Plain(dialogs[k], mode) && dialogs[k].dialog
    requires NewKeys([quiet] + dialogs + [busy])
    requires InactiveMargins(quiet.screen, crop) && !InactiveMargins(busy.screen, crop)
    ensures fresh(learner) && learner.contentRect == Some(crop) && |learner.log| == |dialogs| + 2
    ensures var last := learner.log[|dialogs| + 1]; !last.active && last.frame == busy && last.crop == Some(crop)
    ensures learner.queries == [Asked(0, quiet.screen, crop), Asked(|dialogs| + 1, busy.screen, crop)]
    ensures 0 <= Source(learner.queries, 1) < 2 && learner.queries[Source(learner.queries, 1)].Asked?
    ensures Age(learner.queries, 1) == |dialogs| + 1
  {
    var frames := [quiet] + dialogs + [busy];
    learner := new CropLearner(Some((crop, mode)));
    FirstJudged(mode, crop, quiet);
    learner.Process(quiet);
    ghost var asked := [Asked(0, quiet.screen, crop)];
    for k := 0 to |dialogs|
      invariant learner.Valid() && Cropped(learner.State(), mode, crop, asked, k + 1)
      invariant learner.frameKey == Some(frames[k].key)
    {
      assert frames[k + 1] == dialogs[k];
      DialogJudgesNothing(learner.State(), mode, crop, asked, k + 1, dialogs[k]);
      learner.Process(dialogs[k]);
    }
    assert frames[|dialogs| + 1] == busy;
    ReusedVerdict(learner.State(), mode, crop, quiet.screen, |dialogs| + 1, busy);
    learner.Process(busy);
    SecondAnswer(crop, quiet.screen, busy.screen, |dialogs| + 1);
  }

  /** A screen of one row, four wide; the crop is its right half. */
  function Strip(a: byte, b: byte): Screen { Screen([a, b, 2, 2], 4, 4, 1) }

  const RIGHT_HALF := ContentRect(2, 0, 2, 1)

  /** Its margin is active exactly when the two pixels beside the crop differ. */
  lemma StripVerdict(a: byte, b: byte)
    ensures InactiveMargins(Strip(a, b), RIGHT_HALF) <==> a == b
  {
    var rows := Strip(a, b).Rows();
    assert rows[0] == Strip(a, b).Row(0) == [a, b, 2, 2];
    assert rows[..0] == [];
    assert Around(rows[0], Hole(RIGHT_HALF, 4, 0)) == [a, b];
    assert Margin(rows, 4, RIGHT_HALF) == multiset([a, b]);
    forall v ensures Dominates(rows, 4, RIGHT_HALF, v) <==> a == b == v {
      HistogramIsExact(rows, 4, RIGHT_HALF, v);
    }
    if a == b {
      assert Dominates(rows, 4, RIGHT_HALF, a);
    }
  }

  function StripFrame(key: nat, screen: Screen, dialog: bool): Frame {
    Frame((0, key), screen, 8, dialog, None, None, None, None, 0)
  }

  /** One judged frame, eight with a dialog, one judged frame: the margins are active on the last,
      and it is judged quiet by a histogram nine frames old. */
  method StaleRun() returns (learner: CropLearner)
    ensures |learner.log| == 10 && !learner.log[9].active
    ensures Judged(learner.log[9].crop, learner.log[9].frame)
    ensures !InactiveMargins(learner.log[9].frame.screen, RIGHT_HALF) && learner.contentRect == Some(RIGHT_HALF)
  {
    StripVerdict(0, 0);
    StripVerdict(0, 1);
    var quiet, busy := StripFrame(0, Strip(0, 0), false), StripFrame(9, Strip(0, 1), false);
    var dialogs := seq(8, k requires 0 <= k < 8 => StripFrame(k + 1, Strip(0, 0), true));
    learner := JudgeAcrossDialog((4, 1, 8), RIGHT_HALF, quiet, dialogs, busy);
  }
}
