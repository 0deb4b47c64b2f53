/**
 * The supervised-learning driver: its command-line parser, the learner lookup by name,
 * and the way the cross-validation and random hold-out modes cut the data rows into a
 * training part and a test part.
 *
 * `System.exit` after a usage message becomes a `UsageError` value; a Java `null` field
 * becomes `None`.
 */
module MLSystemManager {
  import opened Common

  /** Why the parser stopped with a usage message. */
  datatype UsageError =
    | InvalidParameter(token: string)          // a token that is no known option
    | InvalidEvaluationMethod(name: string)    // `-E` followed by an unknown method
    | MissingValue(option: string)             // the token needing a value was the last one
    | MissingRequiredOption                    // `-A`, `-L` or `-E` never given

  /** The parser's fields; each `Option` is `None` where the Java field is still `null`. */
  datatype Settings = Settings(
    arff: Option<string>,
    learner: Option<string>,
    evaluation: Option<string>,
    evalExtra: Option<string>,
    verbose: bool,
    normalize: bool)

  /** The fields of a freshly constructed parser. */
  const Unset := Settings(None, None, None, None, false, false)

  /** Evaluation methods that consume one more token into `evalExtra`. */
  predicate TakesExtra(name: string)
  {
    name == "static" || name == "random" || name == "cross"
  }

  /**
   * The parser's loop as a function: the outcome of scanning `args` from the settings `s`.
   * Option values are taken verbatim, even when they look like options themselves.
   */
  function Scan(args: seq<string>, s: Settings): (r: Result<Settings, UsageError>)
    decreases |args|
  {
    if |args| == 0 then Success(s)
    else if args[0] == "-V" then Scan(args[1..], s.(verbose := true))
    else if args[0] == "-N" then Scan(args[1..], s.(normalize := true))
    else if args[0] == "-A" then
      if |args| < 2 then Failure(MissingValue("-A")) else Scan(args[2..], s.(arff := Some(args[1])))
    else if args[0] == "-L" then
      if |args| < 2 then Failure(MissingValue("-L")) else Scan(args[2..], s.(learner := Some(args[1])))
    else if args[0] == "-E" then
      if |args| < 2 then Failure(MissingValue("-E"))
      else if TakesExtra(args[1]) then
        if |args| < 3 then Failure(MissingValue(args[1]))
        else Scan(args[3..], s.(evaluation := Some(args[1]), evalExtra := Some(args[2])))
      else if args[1] == "training" then Scan(args[2..], s.(evaluation := Some(args[1])))
      else Failure(InvalidEvaluationMethod(args[1]))
    else Failure(InvalidParameter(args[0]))
  }

  /** A complete parse: the scan, then the check that `-A`, `-L` and `-E` were all given. */
  function Parse(argv: seq<string>): (r: Result<Settings, UsageError>)
  {
    match Scan(argv, Unset)
    case Failure(e) => Failure(e)
    case Success(s) =>
      if s.arff.None? || s.learner.None? || s.evaluation.None? then Failure(MissingRequiredOption)
      else Success(s)
  }

  /** The parser object; `failure` is set where the Java constructor would print usage and exit. */
  class ArgParser {
    var arff: Option<string>
    var learner: Option<string>
    var evaluation: Option<string>
    var evalExtra: Option<string>
    var verbose: bool
    var normalize: bool
    var failure: Option<UsageError>

    /** The fields as one value; the getters of the Java class read these. */
    function Current(): Settings
      reads this
    {
      Settings(arff, learner, evaluation, evalExtra, verbose, normalize)
    }

    /** What the constructor achieved: the usage error, or the settings. */
    function Outcome(): Result<Settings, UsageError>
      reads this
    {
      if failure.Some? then Failure(failure.value) else Success(Current())
    }

    /** Scans `argv` left to right, advancing past option values as it goes. */
    constructor(argv: seq<string>)
      ensures Outcome() == Parse(argv)
    {
      arff, learner, evaluation, evalExtra := None, None, None, None;
      verbose, normalize := false, false;
      failure := None;
      new;
      var i := 0;
      while i < |argv| && failure.None?
        invariant 0 <= i <= |argv|
        invariant failure.None? ==> Scan(argv, Unset) == Scan(argv[i..], Current())
        invariant failure.Some? ==> Scan(argv, Unset) == Failure(failure.value)
        decreases |argv| - i, failure.None?
      {
        assert argv[i..][0] == argv[i];
        assert argv[i..][1..] == argv[i + 1..];
        if argv[i] == "-V" {
          verbose := true;
        } else if argv[i] == "-N" {
          normalize := true;
        } else if argv[i] == "-A" {
          if i + 1 < |argv| {
            assert argv[i..][2..] == argv[i + 2..];
            i := i + 1;
            arff := Some(argv[i]);
          } else {
            failure := Some(MissingValue("-A"));
          }
        } else if argv[i] == "-L" {
          if i + 1 < |argv| {
            assert argv[i..][2..] == argv[i + 2..];
            i := i + 1;
            learner := Some(argv[i]);
          } else {
            failure := Some(MissingValue("-L"));
          }
        } else if argv[i] == "-E" {
          if i + 1 < |argv| {
            assert argv[i..][2..] == argv[i + 2..];
            i := i + 1;
            evaluation := Some(argv[i]);
            if TakesExtra(argv[i]) {
              if i + 1 < |argv| {
                assert argv[i - 1..][3..] == argv[i + 2..];
                i := i + 1;
                evalExtra := Some(argv[i]);
              } else {
                failure := Some(MissingValue(argv[i]));
              }
            } else if argv[i] != "training" {
              failure := Some(InvalidEvaluationMethod(argv[i]));
            }
          } else {
            failure := Some(MissingValue("-E"));
          }
        } else {
          failure := Some(InvalidParameter(argv[i]));
        }
        if failure.None? {
          i := i + 1;
        }
      }
      if failure.None? {
        assert argv[i..] == [];
        if arff.None? || learner.None? || evaluation.None? {
          failure := Some(MissingRequiredOption);
        }
      }
    }
  }

  // ---------------------------------------------------------------------------
  // A reference definition of well-formed command lines

  /** One option as the user means it. */
  datatype Opt =
    | Verbose
    | Normalize
    | Arff(file: string)
    | Learner(name: string)
    | Eval(name: string, extra: Option<string>)

  /** An option whose value tokens match what its evaluation method expects. */
  predicate WellFormed(o: Opt)
  {
    o.Eval? ==> (TakesExtra(o.name) && o.extra.Some?) || (o.name == "training" && o.extra.None?)
  }

  predicate AllWellFormed(opts: seq<Opt>)
  {
    forall k :: 0 <= k < |opts| ==> WellFormed(opts[k])
  }

  /** The tokens that spell one option. */
  function Tokens(o: Opt): (t: seq<string>)
    ensures 1 <= |t| <= 3
  {
    match o
    case Verbose => ["-V"]
    case Normalize => ["-N"]
    case Arff(file) => ["-A", file]
    case Learner(name) => ["-L", name]
    case Eval(name, extra) => if extra.Some? then ["-E", name, extra.value] else ["-E", name]
  }

  /** The command line spelling a list of options. */
  function Render(opts: seq<Opt>): seq<string>
  {
    if |opts| == 0 then [] else Tokens(opts[0]) + Render(opts[1..])
  }

  /** What one option does to the settings. */
  function Effect(o: Opt, s: Settings): Settings
  {
    match o
    case Verbose => s.(verbose := true)
    case Normalize => s.(normalize := true)
    case Arff(file) => s.(arff := Some(file))
    case Learner(name) => s.(learner := Some(name))
    case Eval(name, extra) =>
      if extra.Some? then s.(evaluation := Some(name), evalExtra := extra) else s.(evaluation := Some(name))
  }

  /** The options' effects, applied left to right. */
  function Apply(opts: seq<Opt>, s: Settings): Settings
  {
    if |opts| == 0 then s else Apply(opts[1..], Effect(opts[0], s))
  }

  /** Scanning one well-formed option consumes exactly its tokens and applies its effect. */
  lemma ScanOne(o: Opt, rest: seq<string>, s: Settings)
    requires WellFormed(o)
    ensures Scan(Tokens(o) + rest, s) == Scan(rest, Effect(o, s))
  {
    var t := Tokens(o) + rest;
    assert t[|Tokens(o)|..] == rest;
  }

  /**
   * The scanner reads a well-formed command line option by option: whatever follows is
   * scanned from the settings the options produce.
   */
  lemma {:induction false} ScanRender(opts: seq<Opt>, rest: seq<string>, s: Settings)
    requires AllWellFormed(opts)
    ensures Scan(Render(opts) + rest, s) == Scan(rest, Apply(opts, s))
    decreases |opts|
  {
    if |opts| > 0 {
      assert Render(opts) + rest == Tokens(opts[0]) + (Render(opts[1..]) + rest);
      ScanOne(opts[0], Render(opts[1..]) + rest, s);
      ScanRender(opts[1..], rest, Effect(opts[0], s));
    } else {
      assert Render(opts) + rest == rest;
    }
  }

  /** Round trip: a well-formed option list, spelled out and parsed, gives its own effect. */
  lemma ParseRender(opts: seq<Opt>)
    requires AllWellFormed(opts)
    ensures var s := Apply(opts, Unset);
            Parse(Render(opts))
            == if s.arff.None? || s.learner.None? || s.evaluation.None? then Failure(MissingRequiredOption)
               else Success(s)
  {
    ScanRender(opts, [], Unset);
    assert Render(opts) + [] == Render(opts);
  }

  /** A token that is not an option stops the parse with `InvalidParameter`. */
  lemma RejectsUnknownToken(opts: seq<Opt>, t: string, rest: seq<string>)
    requires AllWellFormed(opts)
    requires t != "-V" && t != "-N" && t != "-A" && t != "-L" && t != "-E"
    ensures Parse(Render(opts) + [t] + rest) == Failure(InvalidParameter(t))
  {
    ScanRender(opts, [t] + rest, Unset);
    assert Render(opts) + [t] + rest == Render(opts) + ([t] + rest);
  }

  /** An evaluation method other than the four known ones stops the parse. */
  lemma RejectsUnknownMethod(opts: seq<Opt>, name: string, rest: seq<string>)
    requires AllWellFormed(opts)
    requires !TakesExtra(name) && name != "training"
    ensures Parse(Render(opts) + ["-E", name] + rest) == Failure(InvalidEvaluationMethod(name))
  {
    ScanRender(opts, ["-E", name] + rest, Unset);
    assert Render(opts) + ["-E", name] + rest == Render(opts) + (["-E", name] + rest);
  }

  /** `-A`, `-L` or `-E` as the last token ends in the usage error for that option. */
  lemma RejectsMissingValue(opts: seq<Opt>, flag: string)
    requires AllWellFormed(opts)
    requires flag == "-A" || flag == "-L" || flag == "-E"
    ensures Parse(Render(opts) + [flag]) == Failure(MissingValue(flag))
  {
    ScanRender(opts, [flag], Unset);
  }

  /** A method that takes an extra token, given last, ends in the usage error. */
  lemma RejectsMissingExtra(opts: seq<Opt>, name: string)
    requires AllWellFormed(opts)
    requires TakesExtra(name)
    ensures Parse(Render(opts) + ["-E", name]) == Failure(MissingValue(name))
  {
    ScanRender(opts, ["-E", name], Unset);
  }

  /** A scan never unsets a field: a field that was given stays given. */
  lemma {:induction false} ScanKeepsGiven(args: seq<string>, s: Settings)
    requires Scan(args, s).Success?
    ensures var t := Scan(args, s).value;
            && (s.arff.Some? ==> t.arff.Some?)
            && (s.learner.Some? ==> t.learner.Some?)
            && (s.evaluation.Some? ==> t.evaluation.Some?)
            && (s.evalExtra.Some? ==> t.evalExtra.Some?)
            && (s.verbose ==> t.verbose)
            && (s.normalize ==> t.normalize)
    decreases |args|
  {
    if |args| > 0 {
      if args[0] == "-V" || args[0] == "-N" {
        ScanKeepsGiven(args[1..], if args[0] == "-V" then s.(verbose := true) else s.(normalize := true));
      } else if args[0] == "-A" {
        ScanKeepsGiven(args[2..], s.(arff := Some(args[1])));
      } else if args[0] == "-L" {
        ScanKeepsGiven(args[2..], s.(learner := Some(args[1])));
      } else if TakesExtra(args[1]) {
        ScanKeepsGiven(args[3..], s.(evaluation := Some(args[1]), evalExtra := Some(args[2])));
      } else {
        ScanKeepsGiven(args[2..], s.(evaluation := Some(args[1])));
      }
    }
  }

  /** A successful parse has all three required values and agrees with the scan. */
  lemma ParseSuccess(argv: seq<string>)
    ensures Parse(argv).Success? <==>
            Scan(argv, Unset).Success?
            && Scan(argv, Unset).value.arff.Some?
            && Scan(argv, Unset).value.learner.Some?
            && Scan(argv, Unset).value.evaluation.Some?
    ensures Parse(argv).Success? ==> Parse(argv) == Scan(argv, Unset)
  {
  }

  /** `-V` and `-N` set their flags and consume nothing. */
  lemma FlagsConsumeNothing(flag: string, rest: seq<string>, s: Settings)
    requires flag == "-V" || flag == "-N"
    ensures Scan([flag] + rest, s) == Scan(rest, if flag == "-V" then s.(verbose := true) else s.(normalize := true))
  {
    assert ([flag] + rest)[1..] == rest;
  }

  /** The last `-A` wins over any earlier one; likewise the last `-L`. */
  lemma LastValueWins(opts: seq<Opt>, value: string, s: Settings)
    ensures Apply(opts + [Arff(value)], s).arff == Some(value)
    ensures Apply(opts + [Learner(value)], s).learner == Some(value)
  {
    ApplyAppend(opts, [Arff(value)], s);
    ApplyAppend(opts, [Learner(value)], s);
  }

  /** Applying a concatenation applies the two parts in turn. */
  lemma {:induction false} ApplyAppend(p: seq<Opt>, q: seq<Opt>, s: Settings)
    ensures Apply(p + q, s) == Apply(q, Apply(p, s))
    decreases |p|
  {
    if |p| > 0 {
      assert (p + q)[1..] == p[1..] + q;
      ApplyAppend(p[1..], q, Effect(p[0], s));
    } else {
      assert p + q == q;
    }
  }

  /** `-E training` sets only the method: an `evalExtra` given before survives. */
  lemma TrainingKeepsExtra(rest: seq<string>, s: Settings)
    ensures Scan(["-E", "training"] + rest, s) == Scan(rest, s.(evaluation := Some("training")))
  {
    var t := ["-E", "training"] + rest;
    assert t[2..] == rest;
    assert !TakesExtra("training");
  }

  // ---------------------------------------------------------------------------
  // Learner lookup

  /** The five learners of the supervised driver. */
  datatype LearnerKind = Baseline | Perceptron | NeuralNet | DecisionTree | Knn

  /** The name by which the command line selects each learner. */
  function ModelName(k: LearnerKind): string
  {
    match k
    case Baseline => "baseline"
    case Perceptron => "perceptron"
    case NeuralNet => "neuralnet"
    case DecisionTree => "decisiontree"
    case Knn => "knn"
  }

  /** `getLearner`: the learner of that name, or the error message for an unknown one. */
  function GetLearner(model: string): (r: Result<LearnerKind, string>)
    ensures r.Success? ==> ModelName(r.value) == model
    ensures r.Failure? ==> r.error == "Unrecognized model: " + model
  {
    if model == "baseline" then Success(Baseline)
    else if model == "perceptron" then Success(Perceptron)
    else if model == "neuralnet" then Success(NeuralNet)
    else if model == "decisiontree" then Success(DecisionTree)
    else if model == "knn" then Success(Knn)
    else Failure("Unrecognized model: " + model)
  }

  /** The lookup finds every learner by its name, and succeeds on those names only. */
  lemma GetLearnerNames(k: LearnerKind, model: string)
    ensures GetLearner(ModelName(k)) == Success(k)
    ensures GetLearner(model).Success? <==> exists j :: ModelName(j) == model
    ensures GetLearner(model).Success? ==> ModelName(GetLearner(model).value) == model
    ensures GetLearner(model).Failure? ==> GetLearner(model).error == "Unrecognized model: " + model
  {
    if GetLearner(model).Success? {
      assert ModelName(GetLearner(model).value) == model;
    }
  }

  // ---------------------------------------------------------------------------
  // Cross-validation folds and the random hold-out

  /** A training part and a test part of the data rows. */
  datatype Split<T> = Split(train: seq<T>, test: seq<T>)

  /** First test row of fold `i`; Java's `/` on these non-negative values is floor division. */
  function FoldBegin(i: nat, n: nat, folds: nat): (begin: nat)
    requires folds > 0
    ensures begin * folds <= i * n < (begin + 1) * folds
  {
    i * n / folds
  }

  /** One past the last test row of fold `i`. */
  function FoldEnd(i: nat, n: nat, folds: nat): (end: nat)
    requires folds > 0
    ensures end * folds <= (i + 1) * n < (end + 1) * folds
  {
    (i + 1) * n / folds
  }

  /** Fold boundaries never decrease. */
  lemma FoldBeginMonotone(i: nat, j: nat, n: nat, folds: nat)
    requires folds > 0 && i <= j
    ensures FoldBegin(i, n, folds) <= FoldBegin(j, n, folds)
  {
    DivMonotone(i * n, j * n, folds);
  }

  lemma DivMonotone(a: nat, b: nat, d: nat)
    requires d > 0 && a <= b
    ensures a / d <= b / d
  {
    var qa, qb := a / d, b / d;
    assert qa * d <= a <= b < (qb + 1) * d;
    Cancel(qb + 1, qa, d);
  }

  /** Multiplying by the divisor and dividing again gives the number back. */
  lemma MulDiv(n: nat, d: nat)
    requires d > 0
    ensures d * n / d == n
  {
    var q := d * n / d;
    assert q * d <= n * d < (q + 1) * d;
    Cancel(n + 1, q, d);
    Cancel(q + 1, n, d);
  }

  /**
   * The folds tile the rows: the first starts at row 0, each ends where the next begins,
   * the last ends at row `n`, and each lies inside `[0, n]`.
   */
  lemma FoldsTile(i: nat, n: nat, folds: nat)
    requires folds > 0 && i < folds
    ensures FoldBegin(0, n, folds) == 0
    ensures FoldEnd(folds - 1, n, folds) == n
    ensures FoldEnd(i, n, folds) == FoldBegin(i + 1, n, folds)
    ensures 0 <= FoldBegin(i, n, folds) <= FoldEnd(i, n, folds) <= n
  {
    FoldBeginMonotone(i, i + 1, n, folds);
    FoldBeginMonotone(i + 1, folds, n, folds);
    MulDiv(n, folds);
  }

  /** Every row `r < n` is a test row of exactly one fold. */
  lemma {:induction false} FoldOfRow(r: nat, n: nat, folds: nat) returns (i: nat)
    requires folds > 0 && r < n
    ensures i < folds && FoldBegin(i, n, folds) <= r < FoldEnd(i, n, folds)
    ensures forall j: nat :: j < folds && FoldBegin(j, n, folds) <= r < FoldEnd(j, n, folds) ==> j == i
  {
    i := FindFold(r, n, folds, 0);
    forall j: nat | j < folds && FoldBegin(j, n, folds) <= r < FoldEnd(j, n, folds)
      ensures j == i
    {
      if j < i {
        FoldBeginMonotone(j + 1, i, n, folds);
      } else if i < j {
        FoldBeginMonotone(i + 1, j, n, folds);
      }
    }
  }

  /** Linear search for the fold of row `r`, starting at a fold that begins at or before it. */
  lemma {:induction false} FindFold(r: nat, n: nat, folds: nat, j: nat) returns (i: nat)
    requires folds > 0 && r < n && j < folds && FoldBegin(j, n, folds) <= r
    ensures j <= i < folds && FoldBegin(i, n, folds) <= r < FoldEnd(i, n, folds)
    decreases folds - j
  {
    FoldsTile(j, n, folds);
    if r < FoldEnd(j, n, folds) {
      i := j;
    } else {
      i := FindFold(r, n, folds, j + 1);
    }
  }

  /** Folds differ in size by at most one: each holds `n / folds` or `n / folds + 1` rows. */
  lemma FoldSize(i: nat, n: nat, folds: nat)
    requires folds > 0
    ensures n / folds <= FoldEnd(i, n, folds) - FoldBegin(i, n, folds) <= n / folds + 1
  {
    var a := i * n;
    var b := a + n;
    assert (i + 1) * n == b;
    var qa, qb, q := a / folds, b / folds, n / folds;
    assert qa * folds <= a < qa * folds + folds;
    assert qb * folds <= b < qb * folds + folds;
    assert q * folds <= n < q * folds + folds;
    assert (qb - qa) * folds > n - folds >= (q - 1) * folds;
    assert (qb - qa) * folds < n + folds < (q + 2) * folds;
    Cancel(qb - qa, q - 1, folds);
    Cancel(q + 2, qb - qa, folds);
  }

  /** `x * d > y * d` with `d > 0` gives `x > y`. */
  lemma Cancel(x: int, y: int, d: nat)
    requires d > 0 && x * d > y * d
    ensures x > y
  {
    assert x * d - y * d == (x - y) * d;
  }

  /** Fold `i`'s split: rows `[begin, end)` test, the rows before and after them train. */
  function FoldSplit<T>(rows: seq<T>, folds: nat, i: nat): (sp: Split<T>)
    requires folds > 0 && i < folds
    ensures |sp.train| + |sp.test| == |rows|
    ensures multiset(sp.train) + multiset(sp.test) == multiset(rows)
  {
    var n := |rows|;
    FoldsTile(i, n, folds);
    var b, e := FoldBegin(i, n, folds), FoldEnd(i, n, folds);
    assert rows == rows[..b] + rows[b..e] + rows[e..];
    Split(rows[..b] + rows[e..], rows[b..e])
  }

  /** The test parts of the first `i` folds, laid end to end. */
  function TestsUpTo<T>(rows: seq<T>, folds: nat, i: nat): seq<T>
    requires folds > 0 && i <= folds
  {
    if i == 0 then [] else TestsUpTo(rows, folds, i - 1) + FoldSplit(rows, folds, i - 1).test
  }

  /** The first `i` test parts laid end to end are exactly the rows before fold `i`. */
  lemma {:induction false} TestsPrefix<T>(rows: seq<T>, folds: nat, i: nat)
    requires folds > 0 && i <= folds
    ensures FoldBegin(i, |rows|, folds) <= |rows|
    ensures TestsUpTo(rows, folds, i) == rows[..FoldBegin(i, |rows|, folds)]
  {
    var n := |rows|;
    if i > 0 {
      TestsPrefix(rows, folds, i - 1);
      FoldsTile(i - 1, n, folds);
      var b, e := FoldBegin(i - 1, n, folds), FoldEnd(i - 1, n, folds);
      assert FoldSplit(rows, folds, i - 1).test == rows[b..e];
      assert rows[..b] + rows[b..e] == rows[..e];
    }
  }

  /** The test parts of all folds, laid end to end, are the data. */
  lemma TestsCover<T>(rows: seq<T>, folds: nat)
    requires folds > 0
    ensures TestsUpTo(rows, folds, folds) == rows
  {
    TestsPrefix(rows, folds, folds);
    MulDiv(|rows|, folds);
    assert rows[..|rows|] == rows;
  }

  /**
   * The splits the cross-validation loop hands to the learner, one per fold, or the error
   * for a fold count below one.
   */
  method CrossValidationSplits<T>(rows: seq<T>, folds: int) returns (r: Result<seq<Split<T>>, string>)
    ensures r.Failure? <==> folds <= 0
    ensures r.Failure? ==> r.error == "Number of folds must be greater than 0"
    ensures r.Success? ==> |r.value| == folds
                           && forall i :: 0 <= i < folds ==> r.value[i] == FoldSplit(rows, folds, i)
  {
    if folds <= 0 {
      return Failure("Number of folds must be greater than 0");
    }
    var splits: seq<Split<T>> := [];
    var i := 0;
    while i < folds
      invariant 0 <= i <= folds
      invariant |splits| == i
      invariant forall k :: 0 <= k < i ==> splits[k] == FoldSplit(rows, folds, k)
    {
      var begin := i * |rows| / folds;
      var end := (i + 1) * |rows| / folds;
      FoldsTile(i, |rows|, folds);
      splits := splits + [Split(rows[..begin] + rows[end..], rows[begin..end])];
      i := i + 1;
    }
    r := Success(splits);
  }

  /**
   * `(int)(trainPercent * data.rows())`. The double product is an input, `product`: it is
   * rounded before the cast, so its floor can differ by one from the floor of the exact
   * product. Rounding is monotone, so a fraction in `[0, 1]` gives a product in `[0, rows]`,
   * where the cast truncates, which is the floor.
   */
  function TrainSize(product: real, rows: nat): (size: nat)
    requires 0.0 <= product <= rows as real
    ensures size as real <= product < size as real + 1.0
    ensures size <= rows
  {
    product.Floor
  }

  /**
   * The random hold-out: a training fraction `p` outside `[0, 1]` is refused; otherwise the
   * first `TrainSize(product, |rows|)` rows train and the rest test, where `product` is the
   * double `p * rows`.
   */
  function HoldOut<T>(rows: seq<T>, p: real, product: real): (r: Result<Split<T>, string>)
    requires 0.0 <= p <= 1.0 ==> 0.0 <= product <= |rows| as real
    ensures r.Failure? <==> p < 0.0 || p > 1.0
    ensures r.Failure? ==> r.error == "Percentage for random evaluation must be between 0 and 1"
    ensures r.Success? ==> r.value.train + r.value.test == rows
                           && |r.value.train| == TrainSize(product, |rows|)
  {
    if p < 0.0 || p > 1.0 then Failure("Percentage for random evaluation must be between 0 and 1")
    else
      var size := TrainSize(product, |rows|);
      assert rows[..size] + rows[size..] == rows;
      Success(Split(rows[..size], rows[size..]))
  }
}
