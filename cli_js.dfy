/** The command-line parser of `src/cli.js`, the older one: seven flags, no skipping of empty
    entries, and a flag with a value reads `argv[++i]` whatever stands there, so at the very
    end it reads `undefined`. `Number()` is left abstract: a width keeps the entry's text, or
    is `NaN` when the entry is missing. */
module CliJs {
  import opened Text

  /** A number made by `Number(x)`: of an entry's text, or `NaN` of `undefined`. */
  datatype JsNum = NumberOf(text: string) | NaN

  /** `Number(x)` of an entry, `None` being `undefined`. */
  function Number(x: Option<string>): JsNum {
    if x.Some? then NumberOf(x.value) else NaN
  }

  /** The parsed arguments. A field the parser never touched is `None`; `--in` or `--out`
      reading past the end sets its field to `undefined`, which is `None` too. */
  datatype JsArgs = JsArgs(
    wrap: Option<bool>, color: Option<bool>, hyperlinks: Option<bool>,
    inFile: Option<string>, outFile: Option<string>, width: Option<JsNum>, theme: Option<string>)

  const NoJsArgs: JsArgs := JsArgs(None, None, None, None, None, None, None)

  /** The flags that read the entry after them. */
  const JsValueFlags: set<string> := {"--in", "--out", "--width"}

  /** The fields of the parsed arguments. */
  datatype JsField = JWrap | JColor | JHyperlinks | JIn | JOut | JWidth | JTheme

  /** The field each entry is a flag for, taken in the order `parseArgs` compares them. */
  function JsFieldOf(a: string): (f: Option<JsField>)
    ensures f.Some? <==> a in {"--no-wrap", "--no-color", "--no-links"} || a in JsValueFlags || StartsWith(a, "--theme=")
  {
    if a == "--no-wrap" then Some(JWrap)
    else if a == "--no-color" then Some(JColor)
    else if a == "--no-links" then Some(JHyperlinks)
    else if a == "--in" then Some(JIn)
    else if a == "--out" then Some(JOut)
    else if a == "--width" then Some(JWidth)
    else if StartsWith(a, "--theme=") then Some(JTheme)
    else None
  }

  /** What one entry does: the arguments after it, and how many entries it uses up. */
  datatype JsStep = JsStep(args: JsArgs, used: nat)

  /** One turn of the loop on entry `a`, with `next` the entry after it (`None` past the
      end). */
  function JsApply(a: string, next: Option<string>, args: JsArgs): JsStep {
    JsEffect(JsFieldOf(a), a, next, args)
  }

  /** What entry `a`, a flag for field `field` (or none), does. */
  function JsEffect(field: Option<JsField>, a: string, next: Option<string>, args: JsArgs): (r: JsStep)
    ensures r.used == 1 || r.used == 2
  {
    match field
    case None => JsStep(args, 1)
    case Some(f) =>
      match f
      case JWrap => JsStep(args.(wrap := Some(false)), 1)
      case JColor => JsStep(args.(color := Some(false)), 1)
      case JHyperlinks => JsStep(args.(hyperlinks := Some(false)), 1)
      case JIn => JsStep(args.(inFile := next), 2)
      case JOut => JsStep(args.(outFile := next), 2)
      case JWidth => JsStep(args.(width := Some(Number(next))), 2)
      case JTheme => JsStep(args.(theme := AfterEquals(a)), 1)
  }

  /** How many entries entry `a` uses up. */
  function JsUsed(a: string): nat {
    if a in JsValueFlags then 2 else 1
  }

  /** `argv[i]`, `None` being `undefined`. */
  function At(argv: seq<string>, i: nat): Option<string> {
    if i < |argv| then Some(argv[i]) else None
  }

  /** The loop run over the entries `rest`, from the arguments `acc`. */
  function JsWalk(rest: seq<string>, acc: JsArgs): JsArgs
    decreases |rest|
  {
    if rest == [] then acc
    else
      var st := JsApply(rest[0], At(rest, 1), acc);
      JsWalk(Rest(rest, st.used), st.args)
  }

  /** `parseArgs(argv)`: the loop from the third entry on, from no arguments. */
  function JsParse(argv: seq<string>): JsArgs {
    JsWalk(Rest(argv, 2), NoJsArgs)
  }

  /** `parseArgs`: the index walks `argv` from 2, and a flag with a value moves it on to the
      entry it reads. */
  method ParseArgs(argv: seq<string>) returns (args: JsArgs)
    ensures args == JsParse(argv)
  {
    args := NoJsArgs;
    var i := 2;
    while i < |argv|
      invariant i >= 2
      invariant JsWalk(Rest(argv, i), args) == JsParse(argv)
      decreases |argv| - i
    {
      ghost var rest, i0, args0 := Rest(argv, i), i, args;
      assert rest[0] == argv[i] && At(rest, 1) == At(argv, i + 1);
      var a := argv[i];
      if a == "--no-wrap" {
        args := args.(wrap := Some(false));
      } else if a == "--no-color" {
        args := args.(color := Some(false));
      } else if a == "--no-links" {
        args := args.(hyperlinks := Some(false));
      } else if a == "--in" {
        i := i + 1;
        args := args.(inFile := At(argv, i));
      } else if a == "--out" {
        i := i + 1;
        args := args.(outFile := At(argv, i));
      } else if a == "--width" {
        i := i + 1;
        args := args.(width := Some(Number(At(argv, i))));
      } else if StartsWith(a, "--theme=") {
        args := args.(theme := AfterEquals(a));
      }
      assert args == JsApply(a, At(rest, 1), args0).args;
      i := i + 1;
      assert Rest(argv, i) == Rest(rest, i - i0);
    }
  }

  /** A flag with a value uses up the entry after it too; every other entry only itself. */
  lemma JsApplyUsed(a: string, next: Option<string>, args: JsArgs)
    ensures JsApply(a, next, args).used == JsUsed(a)
  {
    if StartsWith(a, "--theme=") {
      assert a[2] == 't';
    }
  }

  /** An entry that takes no value does not look at the entry after it. */
  lemma JsIgnoresNext(a: string, next1: Option<string>, next2: Option<string>, args: JsArgs)
    requires a !in JsValueFlags
    ensures JsApply(a, next1, args) == JsApply(a, next2, args)
  {
    JsApplyUsed(a, next1, args);
  }

  /** `rest` is walked to its very end: no flag with a value stands last. */
  predicate JsAligned(rest: seq<string>)
    decreases |rest|
  {
    rest == [] || (JsUsed(rest[0]) <= |rest| && JsAligned(rest[JsUsed(rest[0])..]))
  }

  /** Walking two runs of entries one after the other is walking the first, then the second,
      when the first does not end in a flag missing its value. */
  lemma {:induction false} JsWalkAppend(xs: seq<string>, ys: seq<string>, acc: JsArgs)
    requires JsAligned(xs)
    ensures JsWalk(xs + ys, acc) == JsWalk(ys, JsWalk(xs, acc))
    decreases |xs|
  {
    if xs != [] {
      var n := JsUsed(xs[0]);
      var st := JsApply(xs[0], At(xs, 1), acc);
      assert JsApply(xs[0], At(xs + ys, 1), acc) == st by {
        if n == 1 {
          JsIgnoresNext(xs[0], At(xs + ys, 1), At(xs, 1), acc);
        }
      }
      assert st.used == n by { JsApplyUsed(xs[0], At(xs, 1), acc); }
      assert (xs + ys)[0] == xs[0];
      assert Rest(xs + ys, n) == Rest(xs, n) + ys;
      JsWalkAppend(xs[n..], ys, st.args);
    } else {
      assert xs + ys == ys;
    }
  }

  /** The first two entries, the runtime and the script, are never read. */
  lemma JsSkipsFirstTwo(argv: seq<string>, runtime: string, script: string)
    requires |argv| >= 2
    ensures JsParse([runtime, script] + argv[2..]) == JsParse(argv)
  {
    assert Rest([runtime, script] + argv[2..], 2) == argv[2..];
  }

  /** An entry at the end acts on what the entries before it parse to: a flag with a value
      reads `undefined` there. */
  lemma JsParseSnoc(argv: seq<string>, a: string)
    requires |argv| >= 2 && JsAligned(argv[2..])
    ensures JsParse(argv + [a]) == JsApply(a, None, JsParse(argv)).args
  {
    assert Rest(argv + [a], 2) == argv[2..] + [a];
    JsWalkAppend(argv[2..], [a], NoJsArgs);
    JsApplyUsed(a, None, JsParse(argv));
  }

  /** A flag with its value at the end acts on what the entries before it parse to. */
  lemma JsParseSnocValue(argv: seq<string>, a: string, v: string)
    requires |argv| >= 2 && JsAligned(argv[2..]) && a in JsValueFlags
    ensures JsParse(argv + [a, v]) == JsApply(a, Some(v), JsParse(argv)).args
  {
    assert Rest(argv + [a, v], 2) == argv[2..] + [a, v];
    JsWalkAppend(argv[2..], [a, v], NoJsArgs);
    JsApplyUsed(a, Some(v), JsParse(argv));
  }

  /** `--in`, `--out` or `--width` as the last entry reads `undefined`: the file is unset
      again and the width is `NaN`, whatever came before. */
  lemma TrailingValueFlagJs(argv: seq<string>)
    requires |argv| >= 2 && JsAligned(argv[2..])
    ensures JsParse(argv + ["--in"]) == JsParse(argv).(inFile := None)
    ensures JsParse(argv + ["--out"]) == JsParse(argv).(outFile := None)
    ensures JsParse(argv + ["--width"]) == JsParse(argv).(width := Some(NaN))
  {
    JsParseSnoc(argv, "--in");
    JsParseSnoc(argv, "--out");
    JsParseSnoc(argv, "--width");
  }

  /** The last value given to a flag is the one kept, an empty one included. */
  lemma LaterValueWinsJs(argv: seq<string>, v: string)
    requires |argv| >= 2 && JsAligned(argv[2..])
    ensures JsParse(argv + ["--in", v]) == JsParse(argv).(inFile := Some(v))
    ensures JsParse(argv + ["--out", v]) == JsParse(argv).(outFile := Some(v))
    ensures JsParse(argv + ["--width", v]) == JsParse(argv).(width := Some(NumberOf(v)))
  {
    JsParseSnocValue(argv, "--in", v);
    JsParseSnocValue(argv, "--out", v);
    JsParseSnocValue(argv, "--width", v);
  }

  /** `--theme=` takes the text after its `=` even when that is empty. */
  lemma ThemeJs(argv: seq<string>, v: string)
    requires |argv| >= 2 && JsAligned(argv[2..]) && '=' !in v
    ensures JsParse(argv + ["--theme=" + v]) == JsParse(argv).(theme := Some(v))
  {
    var a := "--theme=" + v;
    assert StartsWith(a, "--theme=") && a[2] == 't' && a[7] == '=' by {
      assert a[..8] == "--theme=";
    }
    assert IndexOf(a, '=') == 7 by {
      assert '=' !in a[..7];
    }
    AfterEqualsMeaning(a);
    assert a[8..] == v;
    UpToSeparator(v, AfterEquals(a).value, '=');
    JsParseSnoc(argv, a);
  }

  /** An entry that is no flag is skipped wherever it stands. */
  lemma UnknownIgnoredJs(argv: seq<string>, u: string, ys: seq<string>)
    requires |argv| >= 2 && JsAligned(argv[2..])
    requires JsFieldOf(u).None?
    ensures JsParse(argv + [u] + ys) == JsParse(argv + ys)
  {
    assert argv + [u] + ys == argv + ([u] + ys);
    assert Rest(argv + ([u] + ys), 2) == argv[2..] + ([u] + ys);
    assert Rest(argv + ys, 2) == argv[2..] + ys;
    JsWalkAppend(argv[2..], [u] + ys, NoJsArgs);
    JsWalkAppend(argv[2..], ys, NoJsArgs);
    JsApplyUsed(u, At([u] + ys, 1), JsParse(argv));
    assert Rest([u] + ys, 1) == ys;
  }
}
