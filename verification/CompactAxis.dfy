/** One axis of a compact presentation at a whole output scale: the footprint the native resolver
    integrates (presentation/resample.rs) is the one the shader weighs (renderer-gpu.js). */
module CompactAxis {
  import opened Base
  import opened CoverageArithmetic

  // ---------- The shader's axis ----------

  /** How much of output pixel `w` of a cell lies in sample `k`, in units of 1 / (scale * out). */
  function Overlap(w: nat, k: nat, scale: nat, out: nat): nat {
    Max(Min((w + 1) * scale, (k + 1) * out) - Max(w * scale, k * out), 0)
  }

  /** The weighted sum of the samples from `a` up to `b`. */
  function Footprint(w: nat, scale: nat, out: nat, values: seq<nat>, a: nat, b: nat): nat
    requires a <= b <= |values|
    decreases b - a
  {
    if a == b then 0 else Footprint(w, scale, out, values, a, b - 1) + Overlap(w, b - 1, scale, out) * values[b - 1]
  }

  /** Enlarging samples the middle of the output pixel. */
  function Middle(w: nat, scale: nat, out: nat): int
    requires out > 0
  {
    (2 * w + 1) * scale / (2 * out)
  }

  lemma MiddleInTile(w: nat, scale: nat, out: nat)
    requires w < out && scale > 0
    ensures 0 <= Middle(w, scale, out) < scale
    ensures Min(Middle(w, scale, out), scale - 1) == Middle(w, scale, out)
  {
    var m := Middle(w, scale, out);
    FloorBounds((2 * w + 1) * scale, 2 * out);
    MulMono(2 * w + 2, 2 * out, scale);
    Distribute(2 * w + 1, 1, scale);
    assert scale * (2 * out) == 2 * out * scale;
    CancelLess(m, scale, 2 * out);
  }

  lemma OverlapIsDifference(w: nat, k: nat, scale: nat, out: nat)
    ensures Overlap(w, k, scale, out)
         == Clamp((k + 1) * out, w * scale, (w + 1) * scale) - Clamp(k * out, w * scale, (w + 1) * scale)
  {
    OneMoreTime(w, scale);
    OneMoreTime(k, out);
  }

  function Ones(n: nat): seq<nat> { seq(n, i => 1) }

  lemma {:induction false} PartialWeights(w: nat, scale: nat, out: nat, n: nat, m: nat)
    requires n <= m
    ensures Footprint(w, scale, out, Ones(m), 0, n) == Clamp(n * out, w * scale, (w + 1) * scale) - w * scale
  {
    OneMoreTime(w, scale);
    if n > 0 {
      PartialWeights(w, scale, out, n - 1, m);
      OverlapIsDifference(w, n - 1, scale, out);
    }
  }

  /** The weights of one output pixel sum to the scale. */
  lemma WeightsSum(w: nat, scale: nat, out: nat)
    requires w < out
    ensures Footprint(w, scale, out, Ones(scale), 0, scale) == scale
  {
    PartialWeights(w, scale, out, scale, scale);
    OneMoreTime(w, scale);
    MulMono(w + 1, out, scale);
    assert out * scale == scale * out;
  }

  /** So a weighted sum lies between the extremes, scaled. */
  lemma {:induction false} FootprintBetween(w: nat, scale: nat, out: nat, values: seq<nat>, n: nat, lo: nat, hi: nat)
    requires n <= |values| && forall k :: 0 <= k < n ==> lo <= values[k] <= hi
    ensures var weight := Footprint(w, scale, out, Ones(|values|), 0, n);
            lo * weight <= Footprint(w, scale, out, values, 0, n) <= hi * weight
  {
    if n > 0 {
      FootprintBetween(w, scale, out, values, n - 1, lo, hi);
      BetweenStep(lo, hi, values[n - 1], Overlap(w, n - 1, scale, out),
                  Footprint(w, scale, out, Ones(|values|), 0, n - 1), Footprint(w, scale, out, values, 0, n - 1));
    }
  }

  lemma BetweenStep(lo: nat, hi: nat, value: nat, o: nat, weight: nat, sum: nat)
    requires lo <= value <= hi && lo * weight <= sum <= hi * weight
    ensures lo * (weight + o * 1) <= sum + o * value <= hi * (weight + o * 1)
  {
    MulMono(lo, value, o);
    MulMono(value, hi, o);
    Distribute(weight, o, lo);
    Distribute(weight, o, hi);
  }

  /** Samples outside the pixel weigh nothing. */
  lemma NoOverlap(w: nat, k: nat, scale: nat, out: nat)
    requires out > 0 && (k < w * scale / out || k >= CeilDiv((w + 1) * scale, out))
    ensures Overlap(w, k, scale, out) == 0
  {
    OneMoreTime(w, scale);
    OneMoreTime(k, out);
    if k < w * scale / out {
      FloorBounds(w * scale, out);
      MulMono(k + 1, w * scale / out, out);
    } else {
      CeilDivIsLeast((w + 1) * scale, out, k);
    }
  }

  lemma {:induction false} TrimFootprint(w: nat, scale: nat, out: nat, values: seq<nat>, a: nat, b: nat, n: nat)
    requires out > 0 && n <= |values| && a <= b
    requires a == w * scale / out && b == CeilDiv((w + 1) * scale, out)
    ensures n <= a ==> Footprint(w, scale, out, values, 0, n) == 0
    ensures a <= n <= b ==> Footprint(w, scale, out, values, 0, n) == Footprint(w, scale, out, values, a, n)
    ensures b <= n ==> Footprint(w, scale, out, values, 0, n) == Footprint(w, scale, out, values, a, b)
  {
    if n > 0 {
      TrimFootprint(w, scale, out, values, a, b, n - 1);
      if n - 1 < a || n - 1 >= b {
        NoOverlap(w, n - 1, scale, out);
      }
    }
  }

  // ---------- The resolver's axis ----------

  datatype Span = Span(cell: int, weight: int, samples: seq<(int, int)>)

  function CoveredWeight(source: int, dest: int, position: int, k: int): int {
    Min((position + 1) * source, (k + 1) * dest) - Max(position * source, k * dest)
  }

  /** All samples an output position covers, from `a` up to `b`. */
  function Covered(source: int, dest: int, position: int, a: int, b: int): seq<(int, int)> {
    seq(Max(b - a, 0), i requires 0 <= i < Max(b - a, 0) => (a + i, CoveredWeight(source, dest, position, a + i)))
  }

  /** The samples one output position takes, with weights: the middle one when enlarging, all it
      covers when shrinking. */
  function Samples(source: nat, dest: nat, position: nat): seq<(int, int)>
    requires source > 0 && dest > 0
  {
    if source <= dest then [(Min((position * 2 + 1) * source / (dest * 2), source - 1), 1)]
    else Covered(source, dest, position, position * source / dest, RoundUp((position + 1) * source, dest))
  }

  function RoundUp(a: int, b: int): int
    requires b > 0
  {
    (a + b - 1) / b
  }

  /** Consecutive samples of one cell form a span. */
  function Grouped(samples: seq<(int, int)>, scale: nat): seq<Span>
    requires scale > 0
  {
    if samples == [] then []
    else
      var spans, (sample, weight) := Grouped(samples[..|samples| - 1], scale), samples[|samples| - 1];
      var n := |spans|;
      if n > 0 && spans[n - 1].cell == sample / scale
      then spans[n - 1 := Span(sample / scale, spans[n - 1].weight + weight,
                               spans[n - 1].samples + [(sample % scale, weight)])]
      else spans + [Span(sample / scale, weight, [(sample % scale, weight)])]
  }

  function Weight(samples: seq<(int, int)>): int {
    if samples == [] then 0 else Weight(samples[..|samples| - 1]) + samples[|samples| - 1].1
  }

  /** Samples `a` and on of a cell, in both numberings. */
  function Shifted(samples: seq<(int, int)>, shift: int): seq<(int, int)> {
    seq(|samples|, i requires 0 <= i < |samples| => (samples[i].0 + shift, samples[i].1))
  }

  /** Samples that all lie in one cell form one span. */
  lemma {:induction false} OneSpan(samples: seq<(int, int)>, shift: int, cell: int, scale: nat)
    requires scale > 0 && samples != []
    requires forall i :: 0 <= i < |samples| ==>
               (samples[i].0 + shift) / scale == cell && (samples[i].0 + shift) % scale == samples[i].0
    ensures Grouped(Shifted(samples, shift), scale) == [Span(cell, Weight(samples), samples)]
  {
    var n := |samples| - 1;
    assert Shifted(samples, shift)[..n] == Shifted(samples[..n], shift);
    assert samples == samples[..n] + [samples[n]];
    if n > 0 {
      OneSpan(samples[..n], shift, cell, scale);
    } else {
      assert samples[..0] == [];
    }
  }

  lemma OneCell(samples: seq<(int, int)>, cell: nat, scale: nat)
    requires scale > 0 && samples != [] && forall i :: 0 <= i < |samples| ==> 0 <= samples[i].0 < scale
    ensures Grouped(Shifted(samples, cell * scale), scale) == [Span(cell, Weight(samples), samples)]
  {
    forall i | 0 <= i < |samples|
      ensures (samples[i].0 + cell * scale) / scale == cell && (samples[i].0 + cell * scale) % scale == samples[i].0
    {
      Cell(cell, samples[i].0, scale);
    }
    OneSpan(samples, cell * scale, cell, scale);
  }

  // ---------- At a whole output scale ----------

  lemma CancelFactor(n: nat, a: nat, b: nat)
    requires n > 0 && b > 0
    ensures n * b > 0 && n * a / (n * b) == a / b
  {
    assert n * b > 0;
    FloorBounds(a, b);
    Same(n, a, b, a / b);
    QuotientIs(n * a, n * b, a / b);
  }

  lemma CancelFactorUp(n: nat, a: nat, b: nat)
    requires n > 0 && b > 0
    ensures n * b > 0 && RoundUp(n * a, n * b) == RoundUp(a, b)
  {
    assert n * b > 0;
    var c := RoundUp(a, b);
    FloorBounds(a + b - 1, b);
    OneMoreTime(c - 1, b);
    Same(n, a, b, c);
    Same(n, a, b, c - 1);
    OneMoreTime(c - 1, n * b);
    QuotientIs(n * a + n * b - 1, n * b, c);
  }

  /** Bounds on a multiple survive a common factor. */
  lemma Same(n: nat, a: nat, b: nat, q: int)
    requires n > 0
    ensures q * (n * b) <= n * a <==> q * b <= a
    ensures n * a <= q * (n * b) <==> a <= q * b
    ensures n * a < q * (n * b) + n * b <==> a < q * b + b
  {
    var qb := q * b;
    Swap(q, n, b);
    Order(n, qb, a);
    Order(n, a, qb);
    Order(n, qb + b, a);
    Distribute(qb, b, n);
  }

  lemma Order(n: nat, x: int, y: int)
    requires n > 0
    ensures n * x <= n * y <==> x <= y
  {
    if x <= y {
      MulMono(x, y, n);
    } else {
      MulMono(y + 1, x, n);
      OneMoreTime(y, n);
    }
  }

  lemma Swap(a: int, b: int, c: int)
    ensures a * (b * c) == b * (a * c)
  {
  }

  lemma ShiftQuotient(q: int, a: nat, b: nat)
    requires b > 0
    ensures (q * b + a) / b == q + a / b && RoundUp(q * b + a, b) == q + RoundUp(a, b)
  {
    FloorBounds(a, b);
    Distribute(q, a / b, b);
    QuotientIs(q * b + a, b, q + a / b);
    FloorBounds(a + b - 1, b);
    Distribute(q, RoundUp(a, b), b);
    QuotientIs(q * b + a + b - 1, b, q + RoundUp(a, b));
  }

  /** The edges of an output pixel, in the resolver's units and in the shader's. */
  lemma AlignedProduct(logical: nat, scale: nat, out: nat, cell: nat, w: nat)
    ensures (cell * out + w) * (logical * scale) == logical * (cell * scale * out + w * scale)
  {
    Distribute(cell * out, w, scale);
    Regroup(cell, out, scale);
    Swap(cell * out + w, logical, scale);
  }

  lemma AlignedFloor(logical: nat, scale: nat, out: nat, cell: nat, w: nat)
    requires out > 0 && logical > 0
    ensures logical * out > 0
    ensures (cell * out + w) * (logical * scale) / (logical * out) == cell * scale + w * scale / out
  {
    AlignedProduct(logical, scale, out, cell, w);
    CancelFactor(logical, cell * scale * out + w * scale, out);
    ShiftQuotient(cell * scale, w * scale, out);
  }

  lemma AlignedCeil(logical: nat, scale: nat, out: nat, cell: nat, w: nat)
    requires out > 0 && logical > 0
    ensures logical * out > 0
    ensures RoundUp((cell * out + w) * (logical * scale), logical * out) == cell * scale + RoundUp(w * scale, out)
  {
    AlignedProduct(logical, scale, out, cell, w);
    CancelFactorUp(logical, cell * scale * out + w * scale, out);
    ShiftQuotient(cell * scale, w * scale, out);
  }

  lemma FactorMinMax(n: nat, a: int, b: int, c: int, d: int)
    ensures Min(n * a, n * b) - Max(n * c, n * d) == n * (Min(a, b) - Max(c, d))
  {
    if a <= b { MulMono(a, b, n); } else { MulMono(b, a, n); }
    if c <= d { MulMono(c, d, n); } else { MulMono(d, c, n); }
    Distribute(Min(a, b), -Max(c, d), n);
  }

  lemma OverlapIsProper(w: nat, k: nat, scale: nat, out: nat)
    requires out > 0 && w * scale / out <= k < RoundUp((w + 1) * scale, out)
    ensures Overlap(w, k, scale, out) == Min((w + 1) * scale, (k + 1) * out) - Max(w * scale, k * out)
  {
    FloorBounds(w * scale, out);
    MulMono(w * scale / out + 1, k + 1, out);
    OneMoreTime(w * scale / out, out);
    CeilDivIsLeast((w + 1) * scale, out, k);
    OneMoreTime(w, scale);
    OneMoreTime(k, out);
  }

  /** The resolver's weight of a sample is the shader's, times the logical size. */
  lemma AlignedWeight(logical: nat, scale: nat, out: nat, cell: nat, w: nat, k: nat)
    requires out > 0 && logical > 0 && w * scale / out <= k < RoundUp((w + 1) * scale, out)
    ensures CoveredWeight(logical * scale, logical * out, cell * out + w, cell * scale + k)
            == logical * Overlap(w, k, scale, out)
  {
    AlignedProduct(logical, scale, out, cell, w);
    AlignedProduct(logical, scale, out, cell, w + 1);
    AlignedProduct(logical, out, scale, cell, k);
    AlignedProduct(logical, out, scale, cell, k + 1);
    Regroup(cell, scale, out);
    OverlapIsProper(w, k, scale, out);
    var base := cell * scale * out;
    FactorMinMax(logical, base + (w + 1) * scale, base + (k + 1) * out, base + w * scale, base + k * out);
  }

  /** The samples of one output pixel of a cell, relative to the cell. */
  function Taken(logical: nat, scale: nat, out: nat, w: nat): seq<(int, int)>
    requires out > 0
  {
    if scale <= out then [(Middle(w, scale, out), 1)]
    else Weighed(logical, scale, out, w, w * scale / out, RoundUp((w + 1) * scale, out))
  }

  function ShaderWeight(logical: nat, scale: nat, out: nat, w: nat, k: int): int {
    if k < 0 then 0 else logical * Overlap(w, k, scale, out)
  }

  function Weighed(logical: nat, scale: nat, out: nat, w: nat, a: int, b: int): seq<(int, int)> {
    seq(Max(b - a, 0), i requires 0 <= i < Max(b - a, 0) => (a + i, ShaderWeight(logical, scale, out, w, a + i)))
  }

  lemma SameCover(source: int, dest: int, position: int, logical: nat, scale: nat, out: nat, w: nat, a: int, b: int,
                  shift: int)
    requires forall k, k' :: a <= k < b && k' == shift + k ==>
               CoveredWeight(source, dest, position, k') == ShaderWeight(logical, scale, out, w, k)
    ensures Covered(source, dest, position, shift + a, shift + b)
            == Shifted(Weighed(logical, scale, out, w, a, b), shift)
  {
    var left, right := Covered(source, dest, position, shift + a, shift + b),
        Shifted(Weighed(logical, scale, out, w, a, b), shift);
    forall i | 0 <= i < |left| ensures left[i] == right[i] {
      assert shift + a + i == shift + (a + i);
    }
  }

  lemma MiddleOfCell(logical: nat, scale: nat, out: nat, cell: nat, w: nat)
    requires out > 0 && logical > 0
    ensures logical * out > 0
    ensures ((cell * out + w) * 2 + 1) * (logical * scale) / (logical * out * 2) == cell * scale + Middle(w, scale, out)
  {
    AlignedFloor(logical, scale, 2 * out, cell, 2 * w + 1);
    var doubled, dest := cell * (2 * out) + (2 * w + 1), logical * (2 * out);
    assert doubled == (cell * out + w) * 2 + 1 && dest == logical * out * 2;
  }

  lemma InsideImage(logical: nat, scale: nat, cell: nat, m: int)
    requires cell < logical && 0 <= m < scale
    ensures 0 <= cell * scale + m <= logical * scale - 1
  {
    MulMono(cell + 1, logical, scale);
    OneMoreTime(cell, scale);
  }

  lemma AlignedMiddle(logical: nat, scale: nat, out: nat, cell: nat, w: nat)
    requires scale > 0 && out > 0 && cell < logical && w < out && scale <= out
    ensures logical * out > 0
    ensures Min(((cell * out + w) * 2 + 1) * (logical * scale) / (logical * out * 2), logical * scale - 1)
         == cell * scale + Middle(w, scale, out)
  {
    MiddleOfCell(logical, scale, out, cell, w);
    MiddleInTile(w, scale, out);
    InsideImage(logical, scale, cell, Middle(w, scale, out));
  }

  lemma EnlargedSamples(logical: nat, scale: nat, out: nat, cell: nat, w: nat)
    requires scale > 0 && out > 0 && cell < logical && w < out && scale <= out
    ensures logical * out > 0 && logical * scale > 0
    ensures Samples(logical * scale, logical * out, cell * out + w)
            == Shifted(Taken(logical, scale, out, w), cell * scale)
  {
    Order(logical, scale, out);
    AlignedMiddle(logical, scale, out, cell, w);
    assert Taken(logical, scale, out, w) == [(Middle(w, scale, out), 1)];
    assert Shifted([(Middle(w, scale, out), 1)], cell * scale) == [(Middle(w, scale, out) + cell * scale, 1)];
  }

  lemma ShrunkRange(logical: nat, scale: nat, out: nat, cell: nat, w: nat)
    requires out > 0 && cell < logical && w < out < scale
    ensures 0 < logical * out < logical * scale
    ensures Samples(logical * scale, logical * out, cell * out + w)
         == Covered(logical * scale, logical * out, cell * out + w,
                    cell * scale + w * scale / out, cell * scale + RoundUp((w + 1) * scale, out))
  {
    Order(logical, scale, out);
    Order(logical, out, scale);
    AlignedFloor(logical, scale, out, cell, w);
    AlignedCeil(logical, scale, out, cell, w + 1);
    assert cell * out + w + 1 == cell * out + (w + 1);
  }

  lemma ShrunkSamples(logical: nat, scale: nat, out: nat, cell: nat, w: nat)
    requires out > 0 && cell < logical && w < out < scale
    ensures logical * out > 0 && logical * scale > 0
    ensures Samples(logical * scale, logical * out, cell * out + w)
            == Shifted(Taken(logical, scale, out, w), cell * scale)
  {
    ShrunkRange(logical, scale, out, cell, w);
    ShrunkWeights(logical, scale, out, cell, w, logical * scale, logical * out, cell * out + w, cell * scale,
                  w * scale / out, RoundUp((w + 1) * scale, out));
  }

  lemma ShrunkWeights(logical: nat, scale: nat, out: nat, cell: nat, w: nat, source: nat, dest: nat, position: nat,
                      shift: nat, a: int, b: int)
    requires out > 0 && logical > 0 && out < scale && a == w * scale / out && b == RoundUp((w + 1) * scale, out)
    requires source == logical * scale && dest == logical * out && position == cell * out + w && shift == cell * scale
    ensures Covered(source, dest, position, shift + a, shift + b) == Shifted(Taken(logical, scale, out, w), shift)
  {
    forall k, k' | a <= k < b && k' == shift + k
      ensures CoveredWeight(source, dest, position, k') == ShaderWeight(logical, scale, out, w, k)
    {
      CoveredIsShader(logical, scale, out, cell, w, k);
    }
    SameCover(source, dest, position, logical, scale, out, w, a, b, shift);
  }

  lemma CoveredIsShader(logical: nat, scale: nat, out: nat, cell: nat, w: nat, k: int)
    requires out > 0 && logical > 0 && w * scale / out <= k < RoundUp((w + 1) * scale, out)
    ensures CoveredWeight(logical * scale, logical * out, cell * out + w, cell * scale + k)
            == ShaderWeight(logical, scale, out, w, k)
  {
    NonNegativeQuotient(w * scale, out);
    AlignedWeight(logical, scale, out, cell, w, k);
  }

  lemma NonNegativeQuotient(a: nat, b: nat)
    requires b > 0
    ensures a / b >= 0
  {
  }

  /** At a whole output scale, an output pixel takes samples of its own cell only. */
  lemma AlignedSamples(logical: nat, scale: nat, out: nat, cell: nat, w: nat)
    requires scale > 0 && out > 0 && cell < logical && w < out
    ensures logical * out > 0 && logical * scale > 0
    ensures Samples(logical * scale, logical * out, cell * out + w)
            == Shifted(Taken(logical, scale, out, w), cell * scale)
  {
    if scale <= out {
      EnlargedSamples(logical, scale, out, cell, w);
    } else {
      ShrunkSamples(logical, scale, out, cell, w);
    }
  }

  // ---------- The weighted sums agree ----------

  /** What a span of samples adds up to. */
  function Pick(samples: seq<(int, int)>, values: seq<nat>): int
    requires forall i :: 0 <= i < |samples| ==> 0 <= samples[i].0 < |values|
  {
    if samples == [] then 0
    else
      var (k, weight) := samples[|samples| - 1];
      Pick(samples[..|samples| - 1], values) + weight * values[k]
  }

  lemma TakenInTile(logical: nat, scale: nat, out: nat, w: nat)
    requires scale > 0 && w < out
    ensures Taken(logical, scale, out, w) != []
    ensures forall i :: 0 <= i < |Taken(logical, scale, out, w)| ==> 0 <= Taken(logical, scale, out, w)[i].0 < scale
  {
    MiddleInTile(w, scale, out);
    FootprintRange(w, scale, out);
  }

  lemma FootprintRange(w: nat, scale: nat, out: nat)
    requires scale > 0 && w < out
    ensures 0 <= w * scale / out < RoundUp((w + 1) * scale, out) <= scale
  {
    FloorBounds(w * scale, out);
    OneMoreTime(w, scale);
    var a := w * scale / out;
    CeilDivIsLeast((w + 1) * scale, out, a);
    CeilDivIsLeast((w + 1) * scale, out, scale);
    MulMono(w + 1, out, scale);
    assert out * scale == scale * out;
  }

  lemma {:induction false} PickIsFootprint(logical: nat, scale: nat, out: nat, w: nat, a: nat, b: nat, values: seq<nat>)
    requires a <= b <= |values|
    ensures Pick(Weighed(logical, scale, out, w, a, b), values) == logical * Footprint(w, scale, out, values, a, b)
    decreases b - a
  {
    if a < b {
      var all, most := Weighed(logical, scale, out, w, a, b), Weighed(logical, scale, out, w, a, b - 1);
      assert |all| == |most| + 1 && a + |most| == b - 1;
      assert all[..|all| - 1] == most;
      assert all[|all| - 1] == (b - 1, ShaderWeight(logical, scale, out, w, b - 1));
      PickIsFootprint(logical, scale, out, w, a, b - 1, values);
      PickStep(logical, Footprint(w, scale, out, values, a, b - 1), Overlap(w, b - 1, scale, out), values[b - 1]);
    }
  }

  lemma PickStep(logical: nat, sum: nat, o: nat, value: nat)
    ensures logical * sum + logical * o * value == logical * (sum + o * value)
  {
  }

  /** One output pixel's share of the samples of its cell, as the resolver and as the shader take it. */
  function Share(scale: nat, out: nat, w: nat, values: seq<nat>): nat
    requires scale == |values| > 0 && w < out
  {
    if scale <= out then MiddleInTile(w, scale, out); values[Middle(w, scale, out)]
    else Footprint(w, scale, out, values, 0, scale)
  }

  /** The factor by which the resolver's weights exceed the shader's. */
  function Factor(logical: nat, scale: nat, out: nat): nat { if scale <= out then 1 else logical }

  lemma TakenShare(logical: nat, scale: nat, out: nat, w: nat, values: seq<nat>)
    requires scale == |values| > 0 && w < out
    requires forall i :: 0 <= i < |Taken(logical, scale, out, w)| ==> 0 <= Taken(logical, scale, out, w)[i].0 < scale
    ensures Pick(Taken(logical, scale, out, w), values) == Factor(logical, scale, out) * Share(scale, out, w, values)
  {
    if scale <= out {
      MiddleInTile(w, scale, out);
      var samples := Taken(logical, scale, out, w);
      assert samples[..0] == [];
    } else {
      FootprintRange(w, scale, out);
      var a, b := w * scale / out, RoundUp((w + 1) * scale, out);
      PickIsFootprint(logical, scale, out, w, a, b, values);
      TrimFootprint(w, scale, out, values, a, b, scale);
    }
  }

  /** The whole coverage of one axis. */
  function Coverage(scale: nat, out: nat): nat { if scale <= out then 1 else scale }

  lemma {:induction false} WeightIsPick(samples: seq<(int, int)>, values: seq<nat>)
    requires forall i :: 0 <= i < |samples| ==> 0 <= samples[i].0 < |values|
    requires forall k :: 0 <= k < |values| ==> values[k] == 1
    ensures Weight(samples) == Pick(samples, values)
  {
    if samples != [] {
      WeightIsPick(samples[..|samples| - 1], values);
    }
  }

  lemma TakenWeight(logical: nat, scale: nat, out: nat, w: nat)
    requires scale > 0 && w < out
    ensures Weight(Taken(logical, scale, out, w)) == Factor(logical, scale, out) * Coverage(scale, out)
  {
    TakenInTile(logical, scale, out, w);
    WeightIsPick(Taken(logical, scale, out, w), Ones(scale));
    TakenShare(logical, scale, out, w, Ones(scale));
    if scale > out {
      WeightsSum(w, scale, out);
    } else {
      MiddleInTile(w, scale, out);
    }
  }

  /** A share of equal or bounded samples, against the coverage. */
  lemma ShareBetween(scale: nat, out: nat, w: nat, values: seq<nat>, lo: nat, hi: nat)
    requires scale == |values| > 0 && w < out && forall k :: 0 <= k < scale ==> lo <= values[k] <= hi
    ensures lo * Coverage(scale, out) <= Share(scale, out, w, values) <= hi * Coverage(scale, out)
  {
    if scale > out {
      WeightsSum(w, scale, out);
      FootprintBetween(w, scale, out, values, scale, lo, hi);
    } else {
      MiddleInTile(w, scale, out);
    }
  }

  /** The resolver's only span at an output position of a cell. */
  lemma AlignedSpan(logical: nat, scale: nat, out: nat, cell: nat, w: nat)
    requires scale > 0 && cell < logical && w < out
    ensures logical * out > 0 && logical * scale > 0
    ensures Grouped(Samples(logical * scale, logical * out, cell * out + w), scale)
         == [Span(cell, Factor(logical, scale, out) * Coverage(scale, out), Taken(logical, scale, out, w))]
  {
    AlignedSamples(logical, scale, out, cell, w);
    TakenInTile(logical, scale, out, w);
    OneCell(Taken(logical, scale, out, w), cell, scale);
    TakenWeight(logical, scale, out, w);
  }
}
