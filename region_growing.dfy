/**
 * Seeded region growing. A one-pixel seed mask is grown by repeated passes: each pass
 * records a frame of the current mask, dilates the mask, takes the mean and variance of
 * the image over the dilated support, accepts every pixel within `numSigma` standard
 * deviations of that mean, and keeps the dilated cells that are accepted. The loop stops
 * at the first pass whose result equals the mask it started from.
 */
module RegionGrowing {
  import opened Wrappers
  import opened Grids
  import opened Dilation
  import opened Homogeneity
  import opened FrameRenderer

  datatype SeedError = IndexOutOfRange

  datatype PassFailure = EmptySupport

  /** How a growth run ends. `passes` and `pass` count the passes started, i.e. the frames written. */
  datatype GrowthOutcome =
    | Converged(mask: Grid, passes: nat)
    | RegionVanished(lastMask: Grid, pass: nat)
    | PassLimitReached(lastMask: Grid, passes: nat)

  /** An image with at least one pixel and a 0/1 mask of the same shape. */
  predicate Compatible(image: Grid, mask: Grid) {
    IsNonemptyGrid(image) && SameShape(mask, image) && IsBinary(mask)
  }

  /** Python's indexing rule: a negative index counts from the end; in range when -n <= k < n. */
  function PyIndex(k: int, n: nat): (r: Option<nat>)
    ensures r.Some? <==> -(n as int) <= k < n
    ensures r.Some? ==> r.value < n && (r.value == k || r.value == k + n)
  {
    if 0 <= k < n then Some(k) else if -(n as int) <= k < 0 then Some(k + n) else None
  }

  /**
   * A zero mask shaped like `image` with 1 written at (row, col); an index outside the
   * image fails the way numpy's indexing does.
   */
  method InitialSeedImage(image: Grid, row: int, col: int) returns (seed: Result<Grid, SeedError>)
    requires IsGrid(image)
    ensures seed.Ok? <==> PyIndex(row, |image|).Some? && PyIndex(col, Width(image)).Some?
    ensures seed.Ok? ==> SameShape(seed.value, image) && IsBinary(seed.value) && !IsEmptyMask(seed.value)
    ensures seed.Ok? ==> forall i, j | InBounds(image, i, j) ::
      seed.value[i][j] == if Some(i) == PyIndex(row, |image|) && Some(j) == PyIndex(col, Width(image)) then 1.0 else 0.0
  {
    var r, c := PyIndex(row, |image|), PyIndex(col, Width(image));
    if r.None? || c.None? {
      return Err(IndexOutOfRange);
    }
    var zeros := seq(|image|, i requires 0 <= i < |image| => seq(Width(image), j => 0.0));
    var mask := zeros[r.value := zeros[r.value][c.value := 1.0]];
    assert mask[r.value][c.value] == 1.0;
    seed := Ok(mask);
  }

  /** Each cell of `d` divided by `top` (numpy's `d / d.max()`). */
  function Normalise(d: Grid, top: real): (n: Grid)
    requires IsGrid(d) && top != 0.0
    ensures IsGrid(n) && SameShape(n, d)
  {
    seq(|d|, i requires 0 <= i < |d| => seq(Width(d), j requires 0 <= j < Width(d) => d[i][j] / top))
  }

  /** Cell-wise product of two grids of one shape. */
  function Product(a: Grid, b: Grid): (p: Grid)
    requires IsGrid(a) && SameShape(b, a)
    ensures IsGrid(p) && SameShape(p, a)
  {
    seq(|a|, i requires 0 <= i < |a| => seq(Width(a), j requires 0 <= j < Width(a) => a[i][j] * b[i][j]))
  }

  /**
   * The mask a pass keeps from the dilated mask `d`: `d` normalised by its maximum,
   * multiplied cell by cell with the acceptance mask computed from the mean and variance
   * of the image over the support of `d`.
   */
  function Keep(image: Grid, d: Grid, numSigma: real): (next: Grid)
    requires IsNonemptyGrid(image) && SameShape(d, image) && IsBinary(d) && CountNonzero(d) > 0
    ensures IsGrid(next) && SameShape(next, image) && IsBinary(next)
  {
    CountPositiveIff(d);
    BinaryMax(d);
    var accept := AcceptMask(image, Mean(image, d), Variance(image, d), numSigma);
    AcceptMaskCells(image, Mean(image, d), Variance(image, d), numSigma);
    var next := Product(Normalise(d, GridMax(d)), accept);
    assert IsBinary(next) by {
      forall i, j | InBounds(next, i, j)
        ensures next[i][j] == 0.0 || next[i][j] == 1.0
      {
        assert InBounds(d, i, j) && InBounds(accept, i, j);
      }
    }
    next
  }

  /**
   * One pass of the grower on the mask it starts from: dilate, then keep the accepted
   * dilated cells. A pass whose dilated support is empty has no statistics and fails.
   */
  function Pass(image: Grid, mask: Grid, numSigma: real): (r: Result<Grid, PassFailure>)
    requires Compatible(image, mask)
    ensures r.Ok? ==> Compatible(image, r.value)
  {
    var d := Dilate(mask);
    DilateBinary(mask);
    if CountNonzero(d) == 0 then Err(EmptySupport) else Ok(Keep(image, d, numSigma))
  }

  /** Dividing by 1 changes nothing. */
  lemma NormaliseByOne(d: Grid)
    requires IsGrid(d)
    ensures Normalise(d, 1.0) == d
  {
    var n := Normalise(d, 1.0);
    forall i | 0 <= i < |d|
      ensures n[i] == d[i]
    {
      assert forall j | 0 <= j < |d[i]| :: n[i][j] == d[i][j];
    }
  }

  /**
   * The mask entering a pass is nonempty exactly when its dilation is; then the dilation
   * is a 0/1 mask with maximum 1, so dividing it by its maximum leaves it unchanged.
   */
  lemma NormalisedDilation(image: Grid, mask: Grid)
    requires Compatible(image, mask) && !IsEmptyMask(mask)
    ensures var d := Dilate(mask);
      IsBinary(d) && !IsEmptyMask(d) && GridMax(d) == 1.0 && Normalise(d, GridMax(d)) == d
  {
    var d := Dilate(mask);
    DilateBinary(mask);
    DilateEmptyIff(mask);
    BinaryMax(d);
    NormaliseByOne(d);
  }

  /**
   * What the kept mask is, cell by cell: 1 exactly where `d` is set and the image passes
   * the test against the mean and variance over the support of `d`. In particular the
   * kept mask lies within `d`.
   */
  lemma KeepCells(image: Grid, d: Grid, numSigma: real)
    requires IsNonemptyGrid(image) && SameShape(d, image) && IsBinary(d) && CountNonzero(d) > 0
    ensures var next := Keep(image, d, numSigma);
      SupportWithin(next, d) &&
      forall i, j | InBounds(image, i, j) ::
        next[i][j] == if d[i][j] == 1.0 && WithinSigma(image[i][j], Mean(image, d), Variance(image, d), numSigma)
                      then 1.0 else 0.0
  {
    CountPositiveIff(d);
    BinaryMax(d);
    NormaliseByOne(d);
    var next := Keep(image, d, numSigma);
    var accept := AcceptMask(image, Mean(image, d), Variance(image, d), numSigma);
    AcceptMaskCells(image, Mean(image, d), Variance(image, d), numSigma);
    assert next == Product(d, accept);
    forall i, j | InBounds(image, i, j)
      ensures next[i][j] == if d[i][j] == 1.0 && WithinSigma(image[i][j], Mean(image, d), Variance(image, d), numSigma)
                            then 1.0 else 0.0
    {
      assert InBounds(d, i, j);
    }
  }

  /** A pass fails exactly when the mask it starts from is empty. */
  lemma PassFailsIffEmpty(image: Grid, mask: Grid, numSigma: real)
    requires Compatible(image, mask)
    ensures Pass(image, mask, numSigma).Err? <==> IsEmptyMask(mask)
  {
    DilateEmptyIff(mask);
    CountPositiveIff(Dilate(mask));
  }

  /**
   * What a successful pass computes: the next mask is the kept part of the dilated mask,
   * cell by cell as KeepCells states, and it lies within the dilation.
   */
  lemma PassCells(image: Grid, mask: Grid, numSigma: real)
    requires Compatible(image, mask) && !IsEmptyMask(mask)
    ensures var d := Dilate(mask);
      CountNonzero(d) > 0 && Pass(image, mask, numSigma).Ok? &&
      var next := Pass(image, mask, numSigma).value;
      SupportWithin(next, d) &&
      forall i, j | InBounds(image, i, j) ::
        next[i][j] == if d[i][j] == 1.0 && WithinSigma(image[i][j], Mean(image, d), Variance(image, d), numSigma)
                      then 1.0 else 0.0
  {
    var d := Dilate(mask);
    DilateEmptyIff(mask);
    CountPositiveIff(d);
    DilateBinary(mask);
    assert Pass(image, mask, numSigma) == Ok(Keep(image, d, numSigma));
    KeepCells(image, d, numSigma);
  }

  /**
   * With numSigma >= 1 a pass from a nonempty mask succeeds and returns a nonempty mask:
   * some pixel of the dilated support lies within one standard deviation of the mean.
   */
  lemma PassKeepsRegion(image: Grid, mask: Grid, numSigma: real)
    requires Compatible(image, mask) && !IsEmptyMask(mask) && numSigma >= 1.0
    ensures Pass(image, mask, numSigma).Ok? && !IsEmptyMask(Pass(image, mask, numSigma).value)
  {
    var d := Dilate(mask);
    PassCells(image, mask, numSigma);
    DilateBinary(mask);
    SomePixelAccepted(image, d, numSigma);
    var i, j :| InBounds(d, i, j) && d[i][j] != 0.0 && WithinSigma(image[i][j], Mean(image, d), Variance(image, d), numSigma);
    assert InBounds(image, i, j);
    assert Pass(image, mask, numSigma).value[i][j] == 1.0;
  }

  /** A pass as a function value: partial, defined on the masks a run may start a pass from. */
  type PassFunction = Grid --> Result<Grid, PassFailure>

  /** The pass of the grower for a given image and acceptance width. */
  function GrowthPass(image: Grid, numSigma: real): (pass: PassFunction) {
    m requires Compatible(image, m) => Pass(image, m, numSigma)
  }

  /** The masks the grower accepts for `image`, as a predicate value. */
  function CompatibleWith(image: Grid): (valid: Grid -> bool) {
    m => Compatible(image, m)
  }

  /** `pass` is defined on every `valid` mask and a successful pass returns a `valid` mask. */
  ghost predicate Closed(valid: Grid -> bool, pass: PassFunction) {
    forall m {:trigger pass.requires(m)} {:trigger pass(m)} | valid(m) ::
      pass.requires(m) && (pass(m).Ok? ==> valid(pass(m).value))
  }

  /** The grower's pass keeps masks compatible with the image (Pass's postcondition). */
  lemma GrowthPassClosed(image: Grid, numSigma: real)
    ensures Closed(CompatibleWith(image), GrowthPass(image, numSigma))
  {
  }

  /** A run: how it ends, and the masks its passes start from, in order (the masks the frames show). */
  datatype Trace = Trace(outcome: GrowthOutcome, masks: seq<Grid>)

  /**
   * The run driven by `pass` from `mask` with `fuel` passes left and `k` passes already
   * started. Pass k starts from `mask`; the run converges when the pass returns `mask`
   * itself. The grower's run is Run(CompatibleWith(image), GrowthPass(image, numSigma), seed, maxPasses, 0).
   */
  ghost function Run(valid: Grid -> bool, pass: PassFunction, mask: Grid, fuel: nat, k: nat): (tr: Trace)
    requires Closed(valid, pass) && valid(mask)
    ensures |tr.masks| <= fuel && (fuel > 0 ==> |tr.masks| > 0 && tr.masks[0] == mask)
    ensures forall t | 0 <= t < |tr.masks| :: valid(tr.masks[t])
    decreases fuel
  {
    if fuel == 0 then Trace(PassLimitReached(mask, k), [])
    else
      match pass(mask)
      case Err(_) => Trace(RegionVanished(mask, k), [mask])
      case Ok(next) =>
        if next == mask then Trace(Converged(mask, k + 1), [mask])
        else
          var rest := Run(valid, pass, next, fuel - 1, k + 1);
          Trace(rest.outcome, [mask] + rest.masks)
  }

  /**
   * Consecutive masks of a run: each later one is the result of a pass over its
   * predecessor and differs from it (the loop goes on only while the mask changes).
   */
  lemma {:induction false} RunChain(valid: Grid -> bool, pass: PassFunction, mask: Grid, fuel: nat, k: nat, t: nat)
    requires Closed(valid, pass) && valid(mask)
    requires 0 < t < |Run(valid, pass, mask, fuel, k).masks|
    ensures var ms := Run(valid, pass, mask, fuel, k).masks;
      pass(ms[t - 1]) == Ok(ms[t]) && ms[t] != ms[t - 1]
    decreases fuel
  {
    var ms := Run(valid, pass, mask, fuel, k).masks;
    match pass(mask)
    case Err(_) =>
    case Ok(next) =>
      var rest := Run(valid, pass, next, fuel - 1, k + 1).masks;
      assert ms == [mask] + rest;
      if t > 1 {
        RunChain(valid, pass, next, fuel - 1, k + 1, t - 1);
        assert ms[t - 1] == rest[t - 2] && ms[t] == rest[t - 1];
      }
  }

  /**
   * A run converges exactly on a fixed point of the pass: the returned mask is the last
   * mask a pass started from, that pass reproduced it, and the pass count is the number
   * of frames.
   */
  lemma {:induction false} RunConverged(valid: Grid -> bool, pass: PassFunction, mask: Grid, fuel: nat, k: nat)
    requires Closed(valid, pass) && valid(mask)
    ensures var tr := Run(valid, pass, mask, fuel, k);
      var o, ms := tr.outcome, tr.masks;
      (o.Converged? ==>
        |ms| > 0 && o.mask == ms[|ms| - 1] && o.passes == k + |ms| && pass(o.mask) == Ok(o.mask)) &&
      (|ms| > 0 && pass(ms[|ms| - 1]) == Ok(ms[|ms| - 1]) ==> o.Converged?)
    decreases fuel
  {
    if fuel > 0 {
      match pass(mask)
      case Err(_) =>
      case Ok(next) =>
        if next != mask {
          RunConverged(valid, pass, next, fuel - 1, k + 1);
          var rest := Run(valid, pass, next, fuel - 1, k + 1).masks;
          var ms := Run(valid, pass, mask, fuel, k).masks;
          assert ms == [mask] + rest;
          if |rest| > 0 {
            assert ms[|ms| - 1] == rest[|rest| - 1];
          }
        }
    }
  }

  /** A run stops with RegionVanished exactly at a pass that fails, on the last mask of the run. */
  lemma {:induction false} RunVanished(valid: Grid -> bool, pass: PassFunction, mask: Grid, fuel: nat, k: nat)
    requires Closed(valid, pass) && valid(mask)
    ensures var tr := Run(valid, pass, mask, fuel, k);
      var o, ms := tr.outcome, tr.masks;
      (o.RegionVanished? ==>
        |ms| > 0 && o.lastMask == ms[|ms| - 1] && o.pass == k + |ms| - 1 && pass(o.lastMask).Err?) &&
      (|ms| > 0 && pass(ms[|ms| - 1]).Err? ==> o.RegionVanished?)
    decreases fuel
  {
    if fuel > 0 {
      match pass(mask)
      case Err(_) =>
      case Ok(next) =>
        if next != mask {
          RunVanished(valid, pass, next, fuel - 1, k + 1);
          var rest := Run(valid, pass, next, fuel - 1, k + 1).masks;
          var ms := Run(valid, pass, mask, fuel, k).masks;
          assert ms == [mask] + rest;
          if |rest| > 0 {
            assert ms[|ms| - 1] == rest[|rest| - 1];
          }
        }
    }
  }

  /** A run that hits the pass limit has started exactly `fuel` passes. */
  lemma {:induction false} RunLimit(valid: Grid -> bool, pass: PassFunction, mask: Grid, fuel: nat, k: nat)
    requires Closed(valid, pass) && valid(mask)
    ensures var tr := Run(valid, pass, mask, fuel, k);
      tr.outcome.PassLimitReached? ==> |tr.masks| == fuel && tr.outcome.passes == k + fuel
    decreases fuel
  {
    if fuel > 0 {
      match pass(mask)
      case Err(_) =>
      case Ok(next) =>
        if next != mask {
          RunLimit(valid, pass, next, fuel - 1, k + 1);
        }
    }
  }

  /** Starting from a fixed point of the pass, a run converges after one pass with the same mask. */
  lemma FixedPointConvergesAtOnce(valid: Grid -> bool, pass: PassFunction, mask: Grid, fuel: nat)
    requires Closed(valid, pass) && valid(mask) && fuel > 0
    requires pass(mask) == Ok(mask)
    ensures Run(valid, pass, mask, fuel, 0) == Trace(Converged(mask, 1), [mask])
  {
  }

  /**
   * A run never ends with RegionVanished when every valid mask with property `keep`
   * passes successfully to a mask that has `keep` again.
   */
  lemma {:induction false} RunNeverVanishes(valid: Grid -> bool, pass: PassFunction, keep: Grid -> bool,
                                            mask: Grid, fuel: nat, k: nat)
    requires Closed(valid, pass) && valid(mask) && keep(mask)
    requires forall m | valid(m) && keep(m) :: pass.requires(m) && pass(m).Ok? && keep(pass(m).value)
    ensures !Run(valid, pass, mask, fuel, k).outcome.RegionVanished?
    decreases fuel
  {
    if fuel > 0 && pass(mask).value != mask {
      RunNeverVanishes(valid, pass, keep, pass(mask).value, fuel - 1, k + 1);
    }
  }

  /**
   * With numSigma >= 1 a run of the grower from a nonempty mask never ends with
   * RegionVanished: the empty-support path is unreachable.
   */
  lemma GrowthNeverVanishes(image: Grid, numSigma: real, mask: Grid, fuel: nat, k: nat)
    requires Compatible(image, mask) && !IsEmptyMask(mask) && numSigma >= 1.0
    ensures Closed(CompatibleWith(image), GrowthPass(image, numSigma)) &&
      !Run(CompatibleWith(image), GrowthPass(image, numSigma), mask, fuel, k).outcome.RegionVanished?
  {
    GrowthPassClosed(image, numSigma);
    var valid, pass := CompatibleWith(image), GrowthPass(image, numSigma);
    forall m | valid(m) && !IsEmptyMask(m)
      ensures pass.requires(m) && pass(m).Ok? && !IsEmptyMask(pass(m).value)
    {
      PassKeepsRegion(image, m, numSigma);
    }
    RunNeverVanishes(valid, pass, m => !IsEmptyMask(m), mask, fuel, k);
  }

  /** The dilation of the seed [1, 0] on a 1x2 grid covers both pixels. */
  lemma DilationExample()
    ensures Dilate([[1.0, 0.0]]) == [[1.0, 1.0]]
  {
    var seed := [[1.0, 0.0]];
    var d := Dilate(seed);
    assert d[0][0] == WindowMax(seed, 0, 0) == 1.0;
    assert d[0][1] == WindowMax(seed, 0, 1) == 1.0;
    assert d[0] == [1.0, 1.0];
  }

  /** Over both pixels of the image [0, 1] the mean is 1/2 and the variance 1/4. */
  lemma StatisticsExample()
    ensures CountNonzero([[1.0, 1.0]]) == 2
    ensures Mean([[0.0, 1.0]], [[1.0, 1.0]]) == 0.5 && Variance([[0.0, 1.0]], [[1.0, 1.0]]) == 0.25
  {
    var image, d := [[0.0, 1.0]], [[1.0, 1.0]];
    assert d[0][1..] == [1.0] && d[0][1..][1..] == [] && d[1..] == [];
    assert CountNonzero(d) == 2;
    assert image[0][1..] == [1.0] && image[1..] == [];
    assert SupportSum(image, d) == 1.0;
    var sq := SquaredDeviations(image, 0.5);
    assert sq[0] == [0.25, 0.25];
    assert sq == [[0.25, 0.25]];
    assert sq[0][1..] == [0.25] && sq[1..] == [];
    assert SupportSum(sq, d) == 0.5;
  }

  /** On the image [0, 1] with numSigma = 0, the pass from the seed [1, 0] accepts neither pixel. */
  lemma FirstPassEmpties()
    ensures Compatible([[0.0, 1.0]], [[1.0, 0.0]])
    ensures Pass([[0.0, 1.0]], [[1.0, 0.0]], 0.0) == Ok([[0.0, 0.0]])
  {
    var image, seed, empty, d := [[0.0, 1.0]], [[1.0, 0.0]], [[0.0, 0.0]], [[1.0, 1.0]];
    assert Compatible(image, seed) && IsBinary(d);
    DilationExample();
    StatisticsExample();
    KeepCells(image, d, 0.0);
    var next := Keep(image, d, 0.0);
    assert !WithinSigma(0.0, 0.5, 0.25, 0.0) && !WithinSigma(1.0, 0.5, 0.25, 0.0);
    assert InBounds(image, 0, 0) && InBounds(image, 0, 1);
    assert next[0] == [0.0, 0.0];
    assert next == empty;
  }

  /**
   * A region can vanish when numSigma < 1: on the 1x2 image [0, 1] with the seed on the
   * first pixel and numSigma = 0, the first pass dilates to both pixels (mean 1/2,
   * variance 1/4), accepts neither, and returns the empty mask; the second pass then has
   * an empty support, where the mean and deviation of no pixels are taken.
   */
  lemma RegionCanVanish()
    ensures var image, seed, empty := [[0.0, 1.0]], [[1.0, 0.0]], [[0.0, 0.0]];
      Compatible(image, seed) && Compatible(image, empty) &&
      Pass(image, seed, 0.0) == Ok(empty) && Pass(image, empty, 0.0) == Err(EmptySupport)
  {
    var image, empty := [[0.0, 1.0]], [[0.0, 0.0]];
    FirstPassEmpties();
    assert Compatible(image, empty) && IsEmptyMask(empty);
    PassFailsIffEmpty(image, empty, 0.0);
  }

  /** A pass that changes the mask followed by a pass that fails: the run vanishes at pass k + 1. */
  lemma StepThenVanish(valid: Grid -> bool, pass: PassFunction, a: Grid, b: Grid, fuel: nat, k: nat)
    requires Closed(valid, pass) && valid(a) && fuel >= 2
    requires pass(a) == Ok(b) && b != a && pass(b).Err?
    ensures Run(valid, pass, a, fuel, k) == Trace(RegionVanished(b, k + 1), [a, b])
  {
    assert Run(valid, pass, b, fuel - 1, k + 1) == Trace(RegionVanished(b, k + 1), [b]);
    assert [a] + [b] == [a, b];
  }

  /** On that input the modelled run stops at its second pass with RegionVanished, after two frames. */
  lemma VanishingRun(fuel: nat)
    requires fuel >= 2
    ensures var image, seed, empty := [[0.0, 1.0]], [[1.0, 0.0]], [[0.0, 0.0]];
      Compatible(image, seed) && Closed(CompatibleWith(image), GrowthPass(image, 0.0)) &&
      Run(CompatibleWith(image), GrowthPass(image, 0.0), seed, fuel, 0) == Trace(RegionVanished(empty, 1), [seed, empty])
  {
    var image, seed, empty := [[0.0, 1.0]], [[1.0, 0.0]], [[0.0, 0.0]];
    RegionCanVanish();
    GrowthPassClosed(image, 0.0);
    var valid, pass := CompatibleWith(image), GrowthPass(image, 0.0);
    assert pass(seed) == Ok(empty) && pass(empty) == Err(EmptySupport);
    assert seed[0][0] != empty[0][0];
    StepThenVanish(valid, pass, seed, empty, fuel, 0);
  }

  /** Moving the head of the remaining sequence to the end of the visited prefix keeps the whole. */
  lemma ShiftHead<T>(whole: seq<T>, visited: seq<T>, x: T, rest: seq<T>)
    requires whole == visited + ([x] + rest)
    ensures whole == (visited + [x]) + rest
  {
  }

  /**
   * One pass of a run with passes left: the pass from `mask` either ends the run (it
   * fails, or it reproduces `mask`) or the run goes on as the run from the next mask.
   */
  lemma RunStep(valid: Grid -> bool, pass: PassFunction, mask: Grid, fuel: nat, k: nat)
    requires Closed(valid, pass) && valid(mask) && fuel > 0
    ensures var tr := Run(valid, pass, mask, fuel, k);
      (pass(mask).Err? ==> tr == Trace(RegionVanished(mask, k), [mask])) &&
      (pass(mask).Ok? && pass(mask).value == mask ==> tr == Trace(Converged(mask, k + 1), [mask])) &&
      (pass(mask).Ok? && pass(mask).value != mask ==>
        valid(pass(mask).value) &&
        tr.outcome == Run(valid, pass, pass(mask).value, fuel - 1, k + 1).outcome &&
        tr.masks == [mask] + Run(valid, pass, pass(mask).value, fuel - 1, k + 1).masks)
  {
  }

  /** The frames a run writes for the masks `ms`, one per mask. */
  ghost function Film(image: Grid, ms: seq<Grid>): (f: seq<(nat, Frame)>)
    requires forall t | 0 <= t < |ms| :: Compatible(image, ms[t])
    ensures |f| == |ms|
  {
    seq(|ms|, t requires 0 <= t < |ms| && Compatible(image, ms[t]) => (t, Overlay(image, ms[t])))
  }

  /**
   * Film spelled out entry by entry: the frames are numbered 0, 1, 2, ... without gaps
   * (the `frame_{k:04d}` file names), and frame t shows mask t over the image.
   */
  lemma FilmFrames(image: Grid, ms: seq<Grid>)
    requires forall t | 0 <= t < |ms| :: Compatible(image, ms[t])
    ensures forall t | 0 <= t < |ms| :: Film(image, ms)[t] == (t, Overlay(image, ms[t]))
  {
  }

  lemma FilmExtend(image: Grid, ms: seq<Grid>, m: Grid)
    requires forall t | 0 <= t < |ms| :: Compatible(image, ms[t])
    requires Compatible(image, m)
    ensures Film(image, ms + [m]) == Film(image, ms) + [(|ms|, Overlay(image, m))]
  {
    var ms' := ms + [m];
    assert forall t | 0 <= t < |ms| :: ms'[t] == ms[t];
  }

  /**
   * Paints `mask` into the overlay buffer and appends the resulting frame, numbered by the
   * pass counter `k`, which is the number of frames already written. Channels 0 and 1 keep the image and channel 2 holds the region channel for
   * `mask`, so by ShowsOverlay the buffer shows exactly Overlay(image, mask).
   */
  method RecordFrame(buf: array3<real>, image: Grid, ghost visited: seq<Grid>, mask: Grid,
                     ghost frames: seq<(nat, Frame)>, ghost k: nat) returns (ghost frames': seq<(nat, Frame)>)
    requires HoldsImage(buf, image) && Compatible(image, mask) && |visited| == k
    requires forall t | 0 <= t < |visited| :: Compatible(image, visited[t])
    requires frames == Film(image, visited)
    modifies buf
    ensures HoldsImage(buf, image)
    ensures forall i, j | 0 <= i < buf.Length0 && 0 <= j < buf.Length1 :: buf[i, j, 2] == RegionChannel(image, mask)[i][j]
    ensures frames' == Film(image, visited + [mask])
  {
    PaintRegion(buf, image, mask);
    FilmExtend(image, visited, mask);
    frames' := frames + [(k, Snapshot(buf))];
  }

  /**
   * One pass of the growth loop over `mask`, which pass k of the run `whole` starts from
   * with `fuel` passes left: the mask is painted and its frame recorded, then the pass
   * runs. The pass either ends the run (it fails, or it reproduces `mask`) or the run
   * goes on from the mask it returns.
   */
  method GrowPass(buf: array3<real>, image: Grid, valid: Grid -> bool, pass: PassFunction,
                  ghost whole: Trace, ghost visited: seq<Grid>, mask: Grid, ghost frames: seq<(nat, Frame)>,
                  ghost fuel: nat, ghost k: nat)
    returns (step: Result<Grid, PassFailure>, ghost frames': seq<(nat, Frame)>)
    requires Closed(valid, pass) && valid(mask) && Compatible(image, mask) && fuel > 0 && |visited| == k
    requires forall t | 0 <= t < |visited| :: Compatible(image, visited[t])
    requires HoldsImage(buf, image) && frames == Film(image, visited)
    requires whole.outcome == Run(valid, pass, mask, fuel, k).outcome
    requires whole.masks == visited + Run(valid, pass, mask, fuel, k).masks
    modifies buf
    ensures step == pass(mask) && HoldsImage(buf, image) && frames' == Film(image, visited + [mask])
    ensures forall i, j | 0 <= i < buf.Length0 && 0 <= j < buf.Length1 :: buf[i, j, 2] == RegionChannel(image, mask)[i][j]
    ensures step.Err? ==> whole == Trace(RegionVanished(mask, k), visited + [mask])
    ensures step.Ok? && step.value == mask ==> whole == Trace(Converged(mask, k + 1), visited + [mask])
    ensures step.Ok? && step.value != mask ==>
      valid(step.value) &&
      whole.outcome == Run(valid, pass, step.value, fuel - 1, k + 1).outcome &&
      whole.masks == (visited + [mask]) + Run(valid, pass, step.value, fuel - 1, k + 1).masks
  {
    frames' := RecordFrame(buf, image, visited, mask, frames, k);
    step := pass(mask);
    RunStep(valid, pass, mask, fuel, k);
    if step.Ok? && step.value != mask {
      ShiftHead(whole.masks, visited, mask, Run(valid, pass, step.value, fuel - 1, k + 1).masks);
    }
  }

  /**
   * The growth loop, for any pass closed on a set of masks compatible with the image. At
   * most `maxPasses` passes are run. Every pass first paints the mask it starts from into
   * the overlay buffer and records the frame with the pass index, so the frames are
   * numbered 0, 1, 2, ... without gaps and show the masks of the run. The outcome is the run's.
   */
  method Grow(image: Grid, valid: Grid -> bool, pass: PassFunction, seed: Grid, maxPasses: nat)
    returns (outcome: GrowthOutcome, ghost frames: seq<(nat, Frame)>)
    requires Closed(valid, pass) && valid(seed)
    requires forall m | valid(m) :: Compatible(image, m)
    ensures var tr := Run(valid, pass, seed, maxPasses, 0);
      outcome == tr.outcome && frames == Film(image, tr.masks)
  {
    var buf := NewOverlayBuffer(image);
    var mask := seed;
    var k: nat := 0;
    ghost var whole := Run(valid, pass, seed, maxPasses, 0);
    ghost var visited: seq<Grid> := [];
    ghost var left: nat := maxPasses;
    frames := [];
    while k < maxPasses
      invariant k <= maxPasses && left == maxPasses - k && valid(mask) && |visited| == k
      invariant whole.outcome == Run(valid, pass, mask, left, k).outcome
      invariant whole.masks == visited + Run(valid, pass, mask, left, k).masks
      invariant forall t | 0 <= t < k :: Compatible(image, visited[t])
      invariant frames == Film(image, visited)
      invariant HoldsImage(buf, image)
      decreases maxPasses - k
    {
      var step;
      step, frames := GrowPass(buf, image, valid, pass, whole, visited, mask, frames, left, k);
      visited := visited + [mask];
      if step.Err? {
        return RegionVanished(mask, k), frames;
      }
      if step.value == mask {
        return Converged(mask, k + 1), frames;
      }
      mask, k, left := step.value, k + 1, left - 1;
    }
    outcome := PassLimitReached(mask, k);
  }


  /**
   * grow_region: the growth loop with the pass of the region-growing algorithm. As in
   * `grow_region`, `numSigma` defaults to 3.
   */
  method GrowRegion(image: Grid, seed: Grid, maxPasses: nat, numSigma: real := 3.0)
    returns (outcome: GrowthOutcome, ghost frames: seq<(nat, Frame)>)
    requires Compatible(image, seed)
    ensures Closed(CompatibleWith(image), GrowthPass(image, numSigma))
    ensures var tr := Run(CompatibleWith(image), GrowthPass(image, numSigma), seed, maxPasses, 0);
      outcome == tr.outcome && frames == Film(image, tr.masks)
    ensures forall t | 0 <= t < |frames| :: frames[t].0 == t
  {
    GrowthPassClosed(image, numSigma);
    outcome, frames := Grow(image, CompatibleWith(image), GrowthPass(image, numSigma), seed, maxPasses);
    FilmFrames(image, Run(CompatibleWith(image), GrowthPass(image, numSigma), seed, maxPasses, 0).masks);
  }
}
