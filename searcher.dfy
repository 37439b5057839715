/** The scoring function of the searcher's `SimpleSimilarity`: the choice
    of formula by the shape parameter `m`, and the order in which `score`
    evaluates its parts and raises. Floating-point values are modelled as
    reals; `math.log`, `math.exp` and `**` are parameters whose values the
    model never looks at, so only branch selection and structure are
    stated, never numeric values. */
module Searcher {
  import opened Wrappers

  /** The exceptions the scoring code can raise. */
  datatype Exception = ValueError(message: string) | ZeroDivisionError

  /** The error `F_t` raises for a shape parameter it has no formula for. */
  const UnsupportedM: Exception := ValueError("Unsupported value for m")

  /** `math.log`, `math.exp` and `**`, each of which may also raise. */
  datatype MathLib = MathLib(
    log: real -> Result<real, Exception>,
    exp: real -> Result<real, Exception>,
    pow: (real, real) -> Result<real, Exception>)

  /** The fields set once by `SimpleSimilarity.__init__`. */
  datatype Similarity = Similarity(delta: real, adl: real, m: real, lambdaParam: real, n: real)

  /** `SimpleSimilarity()` with the constructor's defaults. */
  function DefaultSimilarity(): Similarity {
    Similarity(1.0, 1.0, 0.9, 0.4, 1.0)
  }

  /** The similarity `search` installs, for an index with `numDocs` documents. */
  function SearchSimilarity(numDocs: int): Similarity {
    Similarity(1.0, 1.0, 0.9, 0.4, numDocs as real)
  }

  /** The collection statistics `score` reads. */
  datatype BasicStats = BasicStats(totalTermFreq: int, numberOfFieldTokens: int, docFreq: int)

  /** Python's `/`, which raises on a zero divisor. */
  function Div(x: real, y: real): (r: Result<real, Exception>)
    ensures r.Err? <==> y == 0.0
    ensures r.Err? ==> r.error == ZeroDivisionError
    ensures r.Ok? ==> r.value == x / y
  {
    if y == 0.0 then Err(ZeroDivisionError) else Ok(x / y)
  }

  /** `lengthNorm`: no length normalisation at all. */
  function LengthNorm(numTerms: int): (r: real)
    ensures r == 1.0
  {
    1.0
  }

  /** `nf1 = log(1 + tf) / log(delta + mtf)`. */
  function Nf1(sim: Similarity, lib: MathLib, tf: real, mtf: real): Result<real, Exception> {
    var num :- lib.log(1.0 + tf);
    var den :- lib.log(sim.delta + mtf);
    Div(num, den)
  }

  /** `nf2 = tf * log(1 + adl / l)`. */
  function Nf2(sim: Similarity, lib: MathLib, tf: real, l: real): Result<real, Exception> {
    var ratio :- Div(sim.adl, l);
    var g :- lib.log(1.0 + ratio);
    Ok(tf * g)
  }

  /** The second exponent of the power formula, `(2 - m) / (1 - m)`; it is
      only evaluated when `m > 2`, where `1 - m` cannot be zero. */
  function PowExponent(sim: Similarity): real
    requires sim.m != 1.0
  {
    (2.0 - sim.m) / (1.0 - sim.m)
  }

  /** The argument `-lambda_param * x` of `math.exp` in the exponential formula. */
  function ExpArgument(sim: Similarity, x: real): real {
    -sim.lambdaParam * x
  }

  /** `F_t`: the power formula for `m > 2`, the log formula for `m == 2`,
      the exponential formula for `m == 1`, and `ValueError` otherwise.
      Operands are evaluated left to right, as Python does. In the log
      formula `1 / (1 - m)` is `1 / -1` and cannot raise. */
  function FT(sim: Similarity, lib: MathLib, x: real, f0: real): Result<real, Exception> {
    if sim.m > 2.0 then
      var k :- Div(1.0, sim.lambdaParam * (2.0 - sim.m));
      var a :- lib.pow(f0, 2.0 - sim.m);
      var b :- lib.pow(x, PowExponent(sim));
      Ok(k * (a - b))
    else if sim.m == 2.0 then
      var k :- Div(1.0, sim.lambdaParam);
      var a :- lib.log(f0);
      var b :- lib.log(x);
      Ok(k * (a - (1.0 / (1.0 - sim.m)) * b))
    else if sim.m == 1.0 then
      var k :- Div(1.0, sim.lambdaParam);
      var e :- lib.exp(ExpArgument(sim, x));
      Ok(k * f0 * (1.0 - e))
    else
      Err(UnsupportedM)
  }

  /** What `score` computes before it calls `F_t`: `nf1`, `nf2` and `f0_t`. */
  datatype ScoreInputs = ScoreInputs(nf1: real, nf2: real, f0: real)

  /** What `score` computes before `F_t`: `mtf`, `nf1`, `nf2`, then
      `f0_t = log(N / docFreq)`. */
  function Inputs(sim: Similarity, lib: MathLib, stats: BasicStats, freq: real, docLen: real)
    : Result<ScoreInputs, Exception>
  {
    var mtf :- Div(stats.totalTermFreq as real, stats.numberOfFieldTokens as real);
    var nf1 :- Nf1(sim, lib, freq, mtf);
    var nf2 :- Nf2(sim, lib, freq, docLen);
    var q :- Div(sim.n, stats.docFreq as real);
    var f0 :- lib.log(q);
    Ok(ScoreInputs(nf1, nf2, f0))
  }

  /** `score`: `F_t` on `nf1`, then on `nf2`, with the same `f0_t`, blended
      with equal weights. */
  function Score(sim: Similarity, lib: MathLib, stats: BasicStats, freq: real, docLen: real)
    : Result<real, Exception>
  {
    var ins :- Inputs(sim, lib, stats, freq, docLen);
    var a :- FT(sim, lib, ins.nf1, ins.f0);
    var b :- FT(sim, lib, ins.nf2, ins.f0);
    Ok(0.5 * a + 0.5 * b)
  }

  /** The shape parameters `F_t` has a formula for. */
  predicate Supported(m: real) {
    m > 2.0 || m == 2.0 || m == 1.0
  }

  /** Every other `m` raises "Unsupported value for m", whatever `x`, `f0_t`
      and the math functions are. */
  lemma UnsupportedRaises(sim: Similarity, lib: MathLib, x: real, f0: real)
    requires !Supported(sim.m)
    ensures FT(sim, lib, x, f0) == Err(ValueError("Unsupported value for m"))
  {
  }

  /** The unsupported values are exactly those below 1 and those strictly
      between 1 and 2. */
  lemma UnsupportedRange(m: real)
    ensures !Supported(m) <==> m < 1.0 || (1.0 < m < 2.0)
  {
  }

  /** For `m > 2` only `**` is used; `log` and `exp` play no part. */
  lemma PowerBranchUsesPow(sim: Similarity, lib: MathLib, lib': MathLib, x: real, f0: real)
    requires sim.m > 2.0 && lib.pow == lib'.pow
    ensures FT(sim, lib, x, f0) == FT(sim, lib', x, f0)
  {
    PowerBranchOk(sim, lib, x, f0);
    PowerBranchOk(sim, lib', x, f0);
    if FT(sim, lib, x, f0).Ok? {
      var a, b := lib.pow(f0, 2.0 - sim.m).value, lib.pow(x, PowExponent(sim)).value;
      PowerBranchValue(sim, lib, x, f0, a, b);
      PowerBranchValue(sim, lib', x, f0, a, b);
    }
  }

  /** For `m == 2` only `log` is used. */
  lemma LogBranchUsesLog(sim: Similarity, lib: MathLib, lib': MathLib, x: real, f0: real)
    requires sim.m == 2.0 && lib.log == lib'.log
    ensures FT(sim, lib, x, f0) == FT(sim, lib', x, f0)
  {
    LogBranchOk(sim, lib, x, f0);
    LogBranchOk(sim, lib', x, f0);
    if FT(sim, lib, x, f0).Ok? {
      var a, b := lib.log(f0).value, lib.log(x).value;
      LogBranchValue(sim, lib, x, f0, a, b);
      LogBranchValue(sim, lib', x, f0, a, b);
      assert FT(sim, lib, x, f0).value == FT(sim, lib', x, f0).value;
    }
  }

  /** For `m == 1` only `exp` is used. */
  lemma ExpBranchUsesExp(sim: Similarity, lib: MathLib, lib': MathLib, x: real, f0: real)
    requires sim.m == 1.0 && lib.exp == lib'.exp
    ensures FT(sim, lib, x, f0) == FT(sim, lib', x, f0)
  {
    ExpBranchOk(sim, lib, x, f0);
    ExpBranchOk(sim, lib', x, f0);
    if FT(sim, lib, x, f0).Ok? {
      ExpBranchValue(sim, lib, x, f0, lib.exp(ExpArgument(sim, x)).value);
      ExpBranchValue(sim, lib', x, f0, lib.exp(ExpArgument(sim, x)).value);
    }
  }

  /** The power formula succeeds exactly when `lambda_param` is non-zero and
      both powers succeed: since `m > 2`, neither `2 - m` nor `1 - m` is zero,
      so `m` itself never divides by zero. */
  lemma PowerBranchOk(sim: Similarity, lib: MathLib, x: real, f0: real)
    requires sim.m > 2.0
    ensures FT(sim, lib, x, f0).Ok?
        <==> sim.lambdaParam != 0.0 && lib.pow(f0, 2.0 - sim.m).Ok? && lib.pow(x, PowExponent(sim)).Ok?
  {
  }

  /** When it succeeds, the power formula is
      `(1 / (lambda (2 - m))) (f0^(2 - m) - x^((2 - m) / (1 - m)))`. */
  lemma PowerBranchValue(sim: Similarity, lib: MathLib, x: real, f0: real, a: real, b: real)
    requires sim.m > 2.0 && sim.lambdaParam != 0.0
    requires lib.pow(f0, 2.0 - sim.m) == Ok(a) && lib.pow(x, PowExponent(sim)) == Ok(b)
    ensures var r := FT(sim, lib, x, f0);
            r.Ok? && r.value == (1.0 / (sim.lambdaParam * (2.0 - sim.m))) * (a - b)
  {
  }

  /** The log formula succeeds exactly when `lambda_param` is non-zero and
      both logarithms succeed. */
  lemma LogBranchOk(sim: Similarity, lib: MathLib, x: real, f0: real)
    requires sim.m == 2.0
    ensures FT(sim, lib, x, f0).Ok?
        <==> sim.lambdaParam != 0.0 && lib.log(f0).Ok? && lib.log(x).Ok?
  {
  }

  /** When it succeeds, the log formula is `(1 / lambda) (log f0 + log x)`:
      with `m == 2` the factor `-(1 / (1 - m))` is `+1`. */
  lemma LogBranchValue(sim: Similarity, lib: MathLib, x: real, f0: real, a: real, b: real)
    requires sim.m == 2.0 && sim.lambdaParam != 0.0
    requires lib.log(f0) == Ok(a) && lib.log(x) == Ok(b)
    ensures var r := FT(sim, lib, x, f0);
            r.Ok? && r.value == (1.0 / sim.lambdaParam) * (a + b)
  {
  }

  /** The exponential formula succeeds exactly when `lambda_param` is
      non-zero and `exp(-lambda x)` succeeds. */
  lemma ExpBranchOk(sim: Similarity, lib: MathLib, x: real, f0: real)
    requires sim.m == 1.0
    ensures FT(sim, lib, x, f0).Ok? <==> sim.lambdaParam != 0.0 && lib.exp(ExpArgument(sim, x)).Ok?
  {
  }

  /** When it succeeds, the exponential formula is
      `(1 / lambda) f0 (1 - exp(-lambda x))`. */
  lemma ExpBranchValue(sim: Similarity, lib: MathLib, x: real, f0: real, e: real)
    requires sim.m == 1.0 && sim.lambdaParam != 0.0
    requires lib.exp(ExpArgument(sim, x)) == Ok(e)
    ensures var r := FT(sim, lib, x, f0);
            r.Ok? && r.value == (1.0 / sim.lambdaParam) * f0 * (1.0 - e)
  {
  }

  /** With a supported `m` and `lambda_param == 0`, the leading `1 / ...`
      raises before any math function is called. */
  lemma ZeroLambdaRaises(sim: Similarity, lib: MathLib, x: real, f0: real)
    requires Supported(sim.m) && sim.lambdaParam == 0.0
    ensures FT(sim, lib, x, f0) == Err(ZeroDivisionError)
  {
  }

  /** `score` succeeds exactly when its inputs and both calls of `F_t`
      succeed, and then it is the equal-weight blend of the two. */
  lemma ScoreBlend(sim: Similarity, lib: MathLib, stats: BasicStats, freq: real, docLen: real)
    ensures var r := Score(sim, lib, stats, freq, docLen);
            var ins := Inputs(sim, lib, stats, freq, docLen);
            && (r.Ok? <==> ins.Ok? && FT(sim, lib, ins.value.nf1, ins.value.f0).Ok?
                                   && FT(sim, lib, ins.value.nf2, ins.value.f0).Ok?)
            && (r.Ok? ==> r.value == 0.5 * FT(sim, lib, ins.value.nf1, ins.value.f0).value
                                   + 0.5 * FT(sim, lib, ins.value.nf2, ins.value.f0).value)
  {
  }

  /** A field without tokens makes `mtf` divide by zero: `score` raises
      before it calls any math function. */
  lemma ZeroTokensRaises(sim: Similarity, lib: MathLib, stats: BasicStats, freq: real, docLen: real)
    requires stats.numberOfFieldTokens == 0
    ensures Inputs(sim, lib, stats, freq, docLen) == Err(ZeroDivisionError)
    ensures Score(sim, lib, stats, freq, docLen) == Err(ZeroDivisionError)
  {
  }

  /** With an unsupported `m`, `score` raises for every document; once its
      inputs are computed the error is "Unsupported value for m". */
  lemma ScoreUnsupportedRaises(sim: Similarity, lib: MathLib, stats: BasicStats, freq: real, docLen: real)
    requires !Supported(sim.m)
    ensures Score(sim, lib, stats, freq, docLen).Err?
    ensures Inputs(sim, lib, stats, freq, docLen).Ok?
        ==> Score(sim, lib, stats, freq, docLen) == Err(ValueError("Unsupported value for m"))
  {
    if Inputs(sim, lib, stats, freq, docLen).Ok? {
      var ins := Inputs(sim, lib, stats, freq, docLen).value;
      UnsupportedRaises(sim, lib, ins.nf1, ins.f0);
    }
  }

  /** The configuration `search` installs, and the constructor's default
      one, use `m = 0.9`: every document score raises. */
  lemma ShippedSettingsAlwaysRaise(numDocs: int, lib: MathLib, stats: BasicStats, freq: real, docLen: real)
    ensures Score(SearchSimilarity(numDocs), lib, stats, freq, docLen).Err?
    ensures Score(DefaultSimilarity(), lib, stats, freq, docLen).Err?
  {
    ScoreUnsupportedRaises(SearchSimilarity(numDocs), lib, stats, freq, docLen);
    ScoreUnsupportedRaises(DefaultSimilarity(), lib, stats, freq, docLen);
  }
}
