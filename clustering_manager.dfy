/**
 * The clustering driver's command-line parser. It keeps the supervised driver's fields but
 * accepts only `-V`, `-N` and `-A`, so the learner, evaluation and extra fields stay unset.
 */
module ClusteringManager {
  import opened Common
  import Driver = MLSystemManager

  /** The parser's loop as a function over the remaining tokens. */
  function Scan(args: seq<string>, s: Driver.Settings): (r: Result<Driver.Settings, Driver.UsageError>)
    decreases |args|
  {
    if |args| == 0 then Success(s)
    else if args[0] == "-V" then Scan(args[1..], s.(verbose := true))
    else if args[0] == "-N" then Scan(args[1..], s.(normalize := true))
    else if args[0] == "-A" then
      if |args| < 2 then Failure(Driver.MissingValue("-A")) else Scan(args[2..], s.(arff := Some(args[1])))
    else Failure(Driver.InvalidParameter(args[0]))
  }

  /** A complete parse: the scan, then the check that `-A` was given. */
  function Parse(argv: seq<string>): (r: Result<Driver.Settings, Driver.UsageError>)
  {
    match Scan(argv, Driver.Unset)
    case Failure(e) => Failure(e)
    case Success(s) => if s.arff.None? then Failure(Driver.MissingRequiredOption) else Success(s)
  }

  /** The parser object; `failure` is set where the Java constructor would print usage and exit. */
  class ArgParser {
    var arff: Option<string>
    var learner: Option<string>
    var evaluation: Option<string>
    var evalExtra: Option<string>
    var verbose: bool
    var normalize: bool
    var failure: Option<Driver.UsageError>

    /** The fields as one value; the getters of the Java class read these. */
    function Current(): Driver.Settings
      reads this
    {
      Driver.Settings(arff, learner, evaluation, evalExtra, verbose, normalize)
    }

    /** What the constructor achieved: the usage error, or the settings. */
    function Outcome(): Result<Driver.Settings, Driver.UsageError>
      reads this
    {
      if failure.Some? then Failure(failure.value) else Success(Current())
    }

    /** Scans `argv` left to right; `-A` advances past its value. */
    constructor(argv: seq<string>)
      ensures Outcome() == Parse(argv)
    {
      arff, learner, evaluation, evalExtra := None, None, None, None;
      verbose, normalize := false, false;
      failure := None;
      new;
      var i := 0;
      while i < |argv| && failure.None?
        invariant 0 <= i <= |argv|
        invariant failure.None? ==> Scan(argv, Driver.Unset) == Scan(argv[i..], Current())
        invariant failure.Some? ==> Scan(argv, Driver.Unset) == Failure(failure.value)
        decreases |argv| - i, failure.None?
      {
        assert argv[i..][0] == argv[i];
        assert argv[i..][1..] == argv[i + 1..];
        if argv[i] == "-V" {
          verbose := true;
        } else if argv[i] == "-N" {
          normalize := true;
        } else if argv[i] == "-A" {
          if i + 1 < |argv| {
            assert argv[i..][2..] == argv[i + 2..];
            i := i + 1;
            arff := Some(argv[i]);
          } else {
            failure := Some(Driver.MissingValue("-A"));
          }
        } else {
          failure := Some(Driver.InvalidParameter(argv[i]));
        }
        if failure.None? {
          i := i + 1;
        }
      }
      if failure.None? {
        assert argv[i..] == [];
        if arff.None? {
          failure := Some(Driver.MissingRequiredOption);
        }
      }
    }
  }

  /** The options this parser knows. */
  predicate Accepted(o: Driver.Opt)
  {
    o.Verbose? || o.Normalize? || o.Arff?
  }

  predicate AllAccepted(opts: seq<Driver.Opt>)
  {
    forall k :: 0 <= k < |opts| ==> Accepted(opts[k])
  }

  /** The scanner reads a command line of accepted options option by option. */
  lemma {:induction false} ScanRender(opts: seq<Driver.Opt>, rest: seq<string>, s: Driver.Settings)
    requires AllAccepted(opts)
    ensures Scan(Driver.Render(opts) + rest, s) == Scan(rest, Driver.Apply(opts, s))
    decreases |opts|
  {
    if |opts| > 0 {
      var t := Driver.Tokens(opts[0]);
      assert Driver.Render(opts) + rest == t + (Driver.Render(opts[1..]) + rest);
      assert (t + (Driver.Render(opts[1..]) + rest))[|t|..] == Driver.Render(opts[1..]) + rest;
      ScanRender(opts[1..], rest, Driver.Effect(opts[0], s));
    } else {
      assert Driver.Render(opts) + rest == rest;
    }
  }

  /** Round trip: accepted options, spelled out and parsed, give their effect when `-A` is among them. */
  lemma ParseRender(opts: seq<Driver.Opt>)
    requires AllAccepted(opts)
    ensures var s := Driver.Apply(opts, Driver.Unset);
            Parse(Driver.Render(opts)) == if s.arff.None? then Failure(Driver.MissingRequiredOption) else Success(s)
  {
    ScanRender(opts, [], Driver.Unset);
    assert Driver.Render(opts) + [] == Driver.Render(opts);
  }

  /** Any token other than `-V`, `-N` and `-A` in option position is refused, `-L` and `-E` included. */
  lemma RejectsOtherTokens(opts: seq<Driver.Opt>, t: string, rest: seq<string>)
    requires AllAccepted(opts)
    requires t != "-V" && t != "-N" && t != "-A"
    ensures Parse(Driver.Render(opts) + [t] + rest) == Failure(Driver.InvalidParameter(t))
  {
    ScanRender(opts, [t] + rest, Driver.Unset);
    assert Driver.Render(opts) + [t] + rest == Driver.Render(opts) + ([t] + rest);
  }

  /** `-A` as the last token ends in the usage error. */
  lemma RejectsTrailingArff(opts: seq<Driver.Opt>)
    requires AllAccepted(opts)
    ensures Parse(Driver.Render(opts) + ["-A"]) == Failure(Driver.MissingValue("-A"))
  {
    ScanRender(opts, ["-A"], Driver.Unset);
  }

  /** The scan never touches the learner, evaluation or extra fields, and never unsets `arff`. */
  lemma {:induction false} ScanLeavesOthers(args: seq<string>, s: Driver.Settings)
    requires Scan(args, s).Success?
    ensures var t := Scan(args, s).value;
            && t.learner == s.learner && t.evaluation == s.evaluation && t.evalExtra == s.evalExtra
            && (s.arff.Some? ==> t.arff.Some?)
    decreases |args|
  {
    if |args| > 0 {
      if args[0] == "-V" {
        ScanLeavesOthers(args[1..], s.(verbose := true));
      } else if args[0] == "-N" {
        ScanLeavesOthers(args[1..], s.(normalize := true));
      } else {
        ScanLeavesOthers(args[2..], s.(arff := Some(args[1])));
      }
    }
  }

  /**
   * A successful parse has `arff` set and leaves learner, evaluation and extra unset; a scan
   * that succeeds without `-A` is the usage error.
   */
  lemma ParseOutcome(argv: seq<string>)
    ensures Parse(argv).Success? ==>
              && Parse(argv).value.arff.Some?
              && Parse(argv).value.learner.None?
              && Parse(argv).value.evaluation.None?
              && Parse(argv).value.evalExtra.None?
    ensures Scan(argv, Driver.Unset).Success? && Scan(argv, Driver.Unset).value.arff.None? ==>
              Parse(argv) == Failure(Driver.MissingRequiredOption)
  {
    if Scan(argv, Driver.Unset).Success? {
      ScanLeavesOthers(argv, Driver.Unset);
    }
  }

  /** A command line this parser accepts is read the same way by the supervised driver's scanner. */
  lemma {:induction false} AgreesWithSupervisedScan(args: seq<string>, s: Driver.Settings)
    requires Scan(args, s).Success?
    ensures Driver.Scan(args, s) == Scan(args, s)
    decreases |args|
  {
    if |args| > 0 {
      if args[0] == "-V" {
        AgreesWithSupervisedScan(args[1..], s.(verbose := true));
      } else if args[0] == "-N" {
        AgreesWithSupervisedScan(args[1..], s.(normalize := true));
      } else {
        AgreesWithSupervisedScan(args[2..], s.(arff := Some(args[1])));
      }
    }
  }
}
