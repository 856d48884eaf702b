/** The command-line parser of `src/cli.ts`: `parseArgs` walks `argv` from its third entry,
    skipping empty entries, setting one field per recognised flag and letting a later flag
    overwrite an earlier one; and `main` keeps seven of the parsed fields for `render`. A flag
    that takes a value always skips the entry after it, and sets its field only when that
    entry is not empty. `Number()` is left abstract: a numeric field keeps the entry's text,
    and `RenderOptionsOf` is given the conversion. */
module CliTs {
  import opened Text
  import Options

  /** `Number(text)` of a non-empty entry. */
  datatype Num = Num(text: string)

  /** The parsed arguments; `inFile` and `outFile` are `args.in` and `args.out`. */
  datatype CliArgs = CliArgs(
    wrap: Option<bool>, color: Option<bool>, hyperlinks: Option<bool>,
    codeWrap: Option<bool>, codeBox: Option<bool>, codeGutter: Option<bool>,
    tableBorder: Option<string>, tableDense: Option<bool>, tableTruncate: Option<bool>,
    tablePadding: Option<Num>, tableEllipsis: Option<string>,
    inFile: Option<string>, outFile: Option<string>, width: Option<Num>, theme: Option<string>,
    listIndent: Option<Num>, quotePrefix: Option<string>, help: Option<bool>)

  const NoArgs: CliArgs := CliArgs(
    None, None, None, None, None, None, None, None, None, None, None, None, None, None, None, None, None, None)

  /** The flags that read the entry after them. */
  const ValueFlags: set<string> :=
    {"--table-padding", "--table-ellipsis", "--in", "--out", "--width", "--list-indent", "--quote-prefix"}

  /** The flags without a value, matched exactly. */
  const Toggles: set<string> := {
    "--no-wrap", "--no-color", "--no-links", "--code-wrap=false", "--code-wrap=true",
    "--code-box=false", "--code-box=true", "--code-gutter=true", "--code-gutter=false",
    "--table-dense", "--table-truncate=false", "--table-truncate=true", "--help", "-h"}

  /** An entry the parser acts on. */
  predicate Recognized(a: string) {
    a in Toggles || a in ValueFlags || StartsWith(a, "--table-border=") || StartsWith(a, "--theme=")
  }

  /** The fields of the parsed arguments. */
  datatype Field =
    | FWrap | FColor | FHyperlinks | FCodeWrap | FCodeBox | FCodeGutter | FTableBorder | FTableDense
    | FTableTruncate | FTablePadding | FTableEllipsis | FIn | FOut | FWidth | FTheme | FListIndent
    | FQuotePrefix | FHelp

  /** The field each entry is a flag for, taken in the order `parseArgs` compares them; an empty
      entry is none. */
  function FieldOf(a: string): (f: Option<Field>)
    ensures f.Some? <==> Recognized(a)
  {
    if a == "" then None
    else if a == "--no-wrap" then Some(FWrap)
    else if a == "--no-color" then Some(FColor)
    else if a == "--no-links" then Some(FHyperlinks)
    else if a in {"--code-wrap=false", "--code-wrap=true"} then Some(FCodeWrap)
    else if a in {"--code-box=false", "--code-box=true"} then Some(FCodeBox)
    else if a in {"--code-gutter=true", "--code-gutter=false"} then Some(FCodeGutter)
    else if StartsWith(a, "--table-border=") then Some(FTableBorder)
    else if a == "--table-dense" then Some(FTableDense)
    else if a in {"--table-truncate=false", "--table-truncate=true"} then Some(FTableTruncate)
    else if a == "--table-padding" then Some(FTablePadding)
    else if a == "--table-ellipsis" then Some(FTableEllipsis)
    else if a == "--in" then Some(FIn)
    else if a == "--out" then Some(FOut)
    else if a == "--width" then Some(FWidth)
    else if StartsWith(a, "--theme=") then Some(FTheme)
    else if a == "--list-indent" then Some(FListIndent)
    else if a == "--quote-prefix" then Some(FQuotePrefix)
    else if a in {"--help", "-h"} then Some(FHelp)
    else None
  }

  function NumText(n: Option<Num>): Option<string> {
    if n.Some? then Some(n.value.text) else None
  }

  /** The text of a field that holds an entry's text. */
  function TextField(x: CliArgs, f: Field): Option<string> {
    match f
    case FTableBorder => x.tableBorder
    case FTablePadding => NumText(x.tablePadding)
    case FTableEllipsis => x.tableEllipsis
    case FIn => x.inFile
    case FOut => x.outFile
    case FWidth => NumText(x.width)
    case FTheme => x.theme
    case FListIndent => NumText(x.listIndent)
    case FQuotePrefix => x.quotePrefix
    case _ => None
  }

  /** `x` and `y` agree on every field but `f`, and on all of them when there is none. */
  predicate SameExcept(x: CliArgs, y: CliArgs, f: Option<Field>) {
    && (f != Some(FWrap) ==> x.wrap == y.wrap)
    && (f != Some(FColor) ==> x.color == y.color)
    && (f != Some(FHyperlinks) ==> x.hyperlinks == y.hyperlinks)
    && (f != Some(FCodeWrap) ==> x.codeWrap == y.codeWrap)
    && (f != Some(FCodeBox) ==> x.codeBox == y.codeBox)
    && (f != Some(FCodeGutter) ==> x.codeGutter == y.codeGutter)
    && (f != Some(FTableBorder) ==> x.tableBorder == y.tableBorder)
    && (f != Some(FTableDense) ==> x.tableDense == y.tableDense)
    && (f != Some(FTableTruncate) ==> x.tableTruncate == y.tableTruncate)
    && (f != Some(FTablePadding) ==> x.tablePadding == y.tablePadding)
    && (f != Some(FTableEllipsis) ==> x.tableEllipsis == y.tableEllipsis)
    && (f != Some(FIn) ==> x.inFile == y.inFile)
    && (f != Some(FOut) ==> x.outFile == y.outFile)
    && (f != Some(FWidth) ==> x.width == y.width)
    && (f != Some(FTheme) ==> x.theme == y.theme)
    && (f != Some(FListIndent) ==> x.listIndent == y.listIndent)
    && (f != Some(FQuotePrefix) ==> x.quotePrefix == y.quotePrefix)
    && (f != Some(FHelp) ==> x.help == y.help)
  }

  /** What one entry does: the arguments after it, and how many entries it uses up. */
  datatype Step = Step(args: CliArgs, used: nat)

  /** One turn of the loop on entry `a`, with `next` the entry after it (`""` past the end,
      which is as falsy as `undefined`). An empty entry is no flag, so it changes nothing. */
  function Apply(a: string, next: string, args: CliArgs): (r: Step)
  {
    Effect(FieldOf(a), a, next, args)
  }

  /** The switches spelled `…=true`. */
  const OnSwitches: set<string> :=
    {"--code-wrap=true", "--code-box=true", "--code-gutter=true", "--table-truncate=true"}

  /** What entry `a`, a flag for field `field` (or none), does; a switch is turned on when it
      is spelled `…=true`. */
  function Effect(field: Option<Field>, a: string, next: string, args: CliArgs): (r: Step)
    ensures r.used == 1 || r.used == 2
  {
    match field
    case None => Step(args, 1)
    case Some(f) =>
      match f
      case FWrap => Step(args.(wrap := Some(false)), 1)
      case FColor => Step(args.(color := Some(false)), 1)
      case FHyperlinks => Step(args.(hyperlinks := Some(false)), 1)
      case FCodeWrap => Step(args.(codeWrap := Some(a in OnSwitches)), 1)
      case FCodeBox => Step(args.(codeBox := Some(a in OnSwitches)), 1)
      case FCodeGutter => Step(args.(codeGutter := Some(a in OnSwitches)), 1)
      case FTableBorder => Step(args.(tableBorder := AfterEquals(a)), 1)
      case FTableDense => Step(args.(tableDense := Some(true)), 1)
      case FTableTruncate => Step(args.(tableTruncate := Some(a in OnSwitches)), 1)
      case FTablePadding => Step(if next != "" then args.(tablePadding := Some(Num(next))) else args, 2)
      case FTableEllipsis => Step(if next != "" then args.(tableEllipsis := Some(next)) else args, 2)
      case FIn => Step(if next != "" then args.(inFile := Some(next)) else args, 2)
      case FOut => Step(if next != "" then args.(outFile := Some(next)) else args, 2)
      case FWidth => Step(if next != "" then args.(width := Some(Num(next))) else args, 2)
      case FTheme =>
        var v := AfterEquals(a);
        Step(if v.Some? && v.value != "" then args.(theme := v) else args, 1)
      case FListIndent => Step(if next != "" then args.(listIndent := Some(Num(next))) else args, 2)
      case FQuotePrefix => Step(if next != "" then args.(quotePrefix := Some(next)) else args, 2)
      case FHelp => Step(args.(help := Some(true)), 1)
  }

  /** An entry that differs from `p` at a position within both does not start with `p`. */
  lemma DiffersAt(s: string, p: string, k: nat)
    requires k < |p| && k < |s| && s[k] != p[k]
    ensures !StartsWith(s, p)
  {
    if |p| <= |s| {
      assert s[..|p|][k] == s[k];
    }
  }

  /** The two flags matched by their beginning are none of the flags matched exactly, nor each
      other. */
  lemma PrefixFlagsDistinct(a: string)
    ensures StartsWith(a, "--table-border=") ==> a !in Toggles && a !in ValueFlags && !StartsWith(a, "--theme=")
    ensures StartsWith(a, "--theme=") ==> a !in Toggles && a !in ValueFlags
  {
    if StartsWith(a, "--table-border=") {
      assert a[2] == 't' && a[8] == 'b';
    }
    if StartsWith(a, "--theme=") {
      assert a[2] == 't' && a[7] == '=';
    }
  }

  /** The fields set from the entry after their flag. */
  predicate TakesValue(f: Field) {
    f.FTablePadding? || f.FTableEllipsis? || f.FIn? || f.FOut? || f.FWidth? || f.FListIndent? || f.FQuotePrefix?
  }

  /** The flags with a value are exactly those of the fields that take one. */
  lemma FieldOfValue(a: string)
    ensures FieldOf(a).Some? && TakesValue(FieldOf(a).value) <==> a in ValueFlags
  {
    PrefixFlagsDistinct(a);
  }

  /** An effect uses up the next entry exactly for a field that takes a value. */
  lemma EffectUsed(field: Option<Field>, a: string, next: string, args: CliArgs)
    ensures Effect(field, a, next, args).used == if field.Some? && TakesValue(field.value) then 2 else 1
  {
  }

  /** An effect that takes no value does not look at the entry after it. */
  lemma EffectIgnoresNext(field: Option<Field>, a: string, next1: string, next2: string, args: CliArgs)
    requires field.None? || !TakesValue(field.value)
    ensures Effect(field, a, next1, args) == Effect(field, a, next2, args)
  {
  }

  /** An effect changes its own field only, and nothing without one. */
  lemma EffectFrame(field: Option<Field>, a: string, next: string, args: CliArgs)
    ensures SameExcept(args, Effect(field, a, next, args).args, field)
    ensures field.None? ==> Effect(field, a, next, args).args == args
  {
    match field
    case None =>
    case Some(f) =>
      match f
      case FWrap =>
      case FColor =>
      case FHyperlinks =>
      case FCodeWrap =>
      case FCodeBox =>
      case FCodeGutter =>
      case FTableBorder =>
      case FTableDense =>
      case FTableTruncate =>
      case FTablePadding =>
      case FTableEllipsis =>
      case FIn =>
      case FOut =>
      case FWidth =>
      case FTheme =>
      case FListIndent =>
      case FQuotePrefix =>
      case FHelp =>
  }

  /** A flag with a value uses up the entry after it too; every other entry only itself. */
  lemma ApplyUsed(a: string, next: string, args: CliArgs)
    ensures Apply(a, next, args).used == if a in ValueFlags then 2 else 1
  {
    FieldOfValue(a);
    EffectUsed(FieldOf(a), a, next, args);
  }

  /** A flag changes its own field only; empty and unknown entries change nothing. */
  lemma ApplyFrame(a: string, next: string, args: CliArgs)
    ensures SameExcept(args, Apply(a, next, args).args, FieldOf(a))
    ensures !Recognized(a) ==> Apply(a, next, args).args == args
  {
    EffectFrame(FieldOf(a), a, next, args);
  }

  /** `--no-wrap`, `--no-color` and `--no-links` switch their field off. */
  lemma NoSwitches(next: string, args: CliArgs)
    ensures Apply("--no-wrap", next, args) == Step(args.(wrap := Some(false)), 1)
    ensures Apply("--no-color", next, args) == Step(args.(color := Some(false)), 1)
    ensures Apply("--no-links", next, args) == Step(args.(hyperlinks := Some(false)), 1)
  {
  }

  /** `--code-wrap=`, `--code-box=` and `--code-gutter=` set their field to the value after `=`. */
  lemma CodeSwitches(next: string, args: CliArgs)
    ensures Apply("--code-wrap=false", next, args) == Step(args.(codeWrap := Some(false)), 1)
    ensures Apply("--code-wrap=true", next, args) == Step(args.(codeWrap := Some(true)), 1)
    ensures Apply("--code-box=false", next, args) == Step(args.(codeBox := Some(false)), 1)
    ensures Apply("--code-box=true", next, args) == Step(args.(codeBox := Some(true)), 1)
    ensures Apply("--code-gutter=true", next, args) == Step(args.(codeGutter := Some(true)), 1)
    ensures Apply("--code-gutter=false", next, args) == Step(args.(codeGutter := Some(false)), 1)
  {
  }

  /** `--table-dense` sets `tableDense`, and `--table-truncate=` sets `tableTruncate` to the
      value after `=`. */
  lemma TableSwitches(next: string, args: CliArgs)
    ensures Apply("--table-dense", next, args) == Step(args.(tableDense := Some(true)), 1)
    ensures Apply("--table-truncate=false", next, args) == Step(args.(tableTruncate := Some(false)), 1)
    ensures Apply("--table-truncate=true", next, args) == Step(args.(tableTruncate := Some(true)), 1)
  {
    DiffersAt("--table-dense", "--table-border=", 8);
    DiffersAt("--table-truncate=false", "--table-border=", 8);
    DiffersAt("--table-truncate=true", "--table-border=", 8);
  }

  /** `--help` and `-h` both set `help`. */
  lemma HelpSwitches(next: string, args: CliArgs)
    ensures Apply("--help", next, args) == Step(args.(help := Some(true)), 1)
    ensures Apply("-h", next, args) == Step(args.(help := Some(true)), 1)
  {
  }

  /** A flag with a value takes the next entry, unless that is missing or empty. */
  lemma ApplyValue(a: string, next: string, args: CliArgs)
    requires a in ValueFlags
    ensures TextField(Apply(a, next, args).args, FieldOf(a).value)
      == if next != "" then Some(next) else TextField(args, FieldOf(a).value)
    ensures next == "" ==> Apply(a, next, args).args == args
  {
    FieldOfValue(a);
  }

  /** `--table-border=` takes the text after its `=`; `--theme=` too, unless that is empty. */
  lemma ApplyEquals(a: string, next: string, args: CliArgs)
    ensures StartsWith(a, "--table-border=") ==>
      Apply(a, next, args) == Step(args.(tableBorder := AfterEquals(a)), 1)
    ensures StartsWith(a, "--theme=") ==>
      Apply(a, next, args)
      == Step(if AfterEquals(a).Some? && AfterEquals(a).value != "" then args.(theme := AfterEquals(a)) else args, 1)
  {
    PrefixFlagsDistinct(a);
  }

  /** Each flag with a value, with the field the next entry goes to when it is not empty; here
      those compared before `--theme=`. */
  lemma ValueFlagSteps(next: string, args: CliArgs)
    ensures Apply("--table-padding", next, args)
      == Step(if next != "" then args.(tablePadding := Some(Num(next))) else args, 2)
    ensures Apply("--table-ellipsis", next, args)
      == Step(if next != "" then args.(tableEllipsis := Some(next)) else args, 2)
  {
    DiffersAt("--table-padding", "--table-border=", 8);
    DiffersAt("--table-ellipsis", "--table-border=", 8);
  }

  /** The flags for files and the width. */
  lemma FileValueFlagSteps(next: string, args: CliArgs)
    ensures Apply("--in", next, args) == Step(if next != "" then args.(inFile := Some(next)) else args, 2)
    ensures Apply("--out", next, args) == Step(if next != "" then args.(outFile := Some(next)) else args, 2)
    ensures Apply("--width", next, args) == Step(if next != "" then args.(width := Some(Num(next))) else args, 2)
  {
  }

  /** The flags with a value compared after `--theme=`. */
  lemma LateValueFlagSteps(next: string, args: CliArgs)
    ensures Apply("--list-indent", next, args)
      == Step(if next != "" then args.(listIndent := Some(Num(next))) else args, 2)
    ensures Apply("--quote-prefix", next, args)
      == Step(if next != "" then args.(quotePrefix := Some(next)) else args, 2)
  {
    DiffersAt("--list-indent", "--theme=", 2);
    DiffersAt("--quote-prefix", "--theme=", 2);
  }

  /** How many entries entry `a` uses up. */
  function Used(a: string): nat {
    if a in ValueFlags then 2 else 1
  }

  /** The entry after the first one of `rest`, or `""` past the end. */
  function NextOf(rest: seq<string>): string {
    if |rest| >= 2 then rest[1] else ""
  }

  /** The loop run over the entries `rest`, from the arguments `acc`. A flag with a value at
      the very end uses up the missing entry after it, and the loop ends. */
  function Walk(rest: seq<string>, acc: CliArgs): CliArgs
    decreases |rest|
  {
    if rest == [] then acc
    else
      var st := Apply(rest[0], NextOf(rest), acc);
      Walk(Rest(rest, st.used), st.args)
  }

  /** `parseArgs(argv)`: the loop from the third entry on, from no arguments. */
  function Parse(argv: seq<string>): CliArgs {
    Walk(Rest(argv, 2), NoArgs)
  }

  /** `parseArgs`: the index walks `argv` from 2, skips empty entries, and moves one entry
      further past a flag with a value. */
  method ParseArgs(argv: seq<string>) returns (args: CliArgs)
    ensures args == Parse(argv)
  {
    args := NoArgs;
    var i := 2;
    while i < |argv|
      invariant i >= 2
      invariant Walk(Rest(argv, i), args) == Parse(argv)
      decreases |argv| - i
    {
      ghost var rest, i0 := Rest(argv, i), i;
      var a := argv[i];
      var next := if i + 1 < |argv| then argv[i + 1] else "";
      assert rest[0] == a && NextOf(rest) == next;
      if a == "" {
        i := i + 1;
        continue;
      }
      var skip;
      args, skip := ApplyFlag(a, next, args);
      if skip {
        i := i + 1;
      }
      i := i + 1;
      assert Rest(argv, i) == Rest(rest, i - i0);
    }
  }

  /** The body of the loop of `parseArgs` for a non-empty entry `a`: the arguments after it,
      and whether it skips the entry after it. */
  method ApplyFlag(a: string, next: string, args0: CliArgs) returns (args: CliArgs, skip: bool)
    ensures args == Apply(a, next, args0).args
    ensures skip <==> Apply(a, next, args0).used == 2
  {
    args, skip := args0, false;
    if a == "--no-wrap" { NoSwitches(next, args0); args := args.(wrap := Some(false)); }
    else if a == "--no-color" { NoSwitches(next, args0); args := args.(color := Some(false)); }
    else if a == "--no-links" { NoSwitches(next, args0); args := args.(hyperlinks := Some(false)); }
    else if a == "--code-wrap=false" { CodeSwitches(next, args0); args := args.(codeWrap := Some(false)); }
    else if a == "--code-wrap=true" { CodeSwitches(next, args0); args := args.(codeWrap := Some(true)); }
    else if a == "--code-box=false" { CodeSwitches(next, args0); args := args.(codeBox := Some(false)); }
    else if a == "--code-box=true" { CodeSwitches(next, args0); args := args.(codeBox := Some(true)); }
    else if a == "--code-gutter=true" { CodeSwitches(next, args0); args := args.(codeGutter := Some(true)); }
    else if a == "--code-gutter=false" { CodeSwitches(next, args0); args := args.(codeGutter := Some(false)); }
    else if StartsWith(a, "--table-border=") {
      ApplyEquals(a, next, args0);
      args := args.(tableBorder := AfterEquals(a));
    }
    else if a == "--table-dense" { TableSwitches(next, args0); args := args.(tableDense := Some(true)); }
    else if a == "--table-truncate=false" { TableSwitches(next, args0); args := args.(tableTruncate := Some(false)); }
    else if a == "--table-truncate=true" { TableSwitches(next, args0); args := args.(tableTruncate := Some(true)); }
    else if a == "--table-padding" {
      ValueFlagSteps(next, args0);
      if next != "" { args := args.(tablePadding := Some(Num(next))); }
      skip := true;
    } else if a == "--table-ellipsis" {
      ValueFlagSteps(next, args0);
      if next != "" { args := args.(tableEllipsis := Some(next)); }
      skip := true;
    } else if a == "--in" {
      FileValueFlagSteps(next, args0);
      if next != "" { args := args.(inFile := Some(next)); }
      skip := true;
    } else if a == "--out" {
      FileValueFlagSteps(next, args0);
      if next != "" { args := args.(outFile := Some(next)); }
      skip := true;
    } else if a == "--width" {
      FileValueFlagSteps(next, args0);
      if next != "" { args := args.(width := Some(Num(next))); }
      skip := true;
    } else if StartsWith(a, "--theme=") {
      ApplyEquals(a, next, args0);
      var themeVal := AfterEquals(a);
      if themeVal.Some? && themeVal.value != "" { args := args.(theme := themeVal); }
    } else if a == "--list-indent" {
      LateValueFlagSteps(next, args0);
      if next != "" { args := args.(listIndent := Some(Num(next))); }
      skip := true;
    } else if a == "--quote-prefix" {
      LateValueFlagSteps(next, args0);
      if next != "" { args := args.(quotePrefix := Some(next)); }
      skip := true;
    } else if a == "--help" || a == "-h" {
      HelpSwitches(next, args0);
      args := args.(help := Some(true));
    } else {
      ApplyFrame(a, next, args0);
      ApplyUsed(a, next, args0);
    }
  }


  /** The first two entries, the runtime and the script, are never read. */
  lemma ParseSkipsFirstTwo(argv: seq<string>, runtime: string, script: string)
    requires |argv| >= 2
    ensures Parse([runtime, script] + argv[2..]) == Parse(argv)
  {
    assert Rest([runtime, script] + argv[2..], 2) == argv[2..];
  }

  /** `rest` is walked to its very end: no flag with a value stands last without its value. */
  predicate Aligned(rest: seq<string>)
    decreases |rest|
  {
    rest == [] || (Used(rest[0]) <= |rest| && Aligned(rest[Used(rest[0])..]))
  }

  /** Walking two runs of entries one after the other is walking the first, then the second,
      when the first does not end in a flag missing its value. */
  lemma {:induction false} WalkAppend(xs: seq<string>, ys: seq<string>, acc: CliArgs)
    requires Aligned(xs)
    ensures Walk(xs + ys, acc) == Walk(ys, Walk(xs, acc))
    decreases |xs|
  {
    if xs != [] {
      var st := Apply(xs[0], NextOf(xs), acc);
      var n := Used(xs[0]);
      assert Apply(xs[0], NextOf(xs + ys), acc) == st by {
        ApplyUsed(xs[0], NextOf(xs), acc);
        FieldOfValue(xs[0]);
        if n == 1 {
          EffectIgnoresNext(FieldOf(xs[0]), xs[0], NextOf(xs + ys), NextOf(xs), acc);
        }
      }
      assert st.used == n by { ApplyUsed(xs[0], NextOf(xs), acc); }
      assert (xs + ys)[0] == xs[0];
      assert (xs + ys)[n..] == xs[n..] + ys;
      WalkAppend(xs[n..], ys, st.args);
    } else {
      assert xs + ys == ys;
    }
  }

  /** The entries after the first two of `argv + ys`. */
  lemma RestAppend(argv: seq<string>, ys: seq<string>)
    requires |argv| >= 2
    ensures Rest(argv + ys, 2) == Rest(argv, 2) + ys
  {
    assert (argv + ys)[2..] == argv[2..] + ys;
  }

  /** A flag without a value at the end acts on what the entries before it parse to, and
      overwrites whatever they set its field to. */
  lemma ParseSnoc(argv: seq<string>, a: string)
    requires |argv| >= 2 && Aligned(argv[2..]) && a !in ValueFlags
    ensures Parse(argv + [a]) == Apply(a, "", Parse(argv)).args
  {
    RestAppend(argv, [a]);
    WalkAppend(argv[2..], [a], NoArgs);
    ApplyUsed(a, "", Parse(argv));
  }

  /** A flag with its value at the end acts on what the entries before it parse to. */
  lemma ParseSnocValue(argv: seq<string>, a: string, v: string)
    requires |argv| >= 2 && Aligned(argv[2..]) && a in ValueFlags
    ensures Parse(argv + [a, v]) == Apply(a, v, Parse(argv)).args
  {
    RestAppend(argv, [a, v]);
    WalkAppend(argv[2..], [a, v], NoArgs);
    ApplyUsed(a, v, Parse(argv));
  }

  /** The last value given to a flag is the one kept, whatever came before. */
  lemma LaterValueWins(argv: seq<string>, a: string, v: string)
    requires |argv| >= 2 && Aligned(argv[2..]) && a in ValueFlags && v != ""
    ensures TextField(Parse(argv + [a, v]), FieldOf(a).value) == Some(v)
    ensures SameExcept(Parse(argv), Parse(argv + [a, v]), FieldOf(a))
  {
    ParseSnocValue(argv, a, v);
    ApplyValue(a, v, Parse(argv));
    ApplyFrame(a, v, Parse(argv));
  }

  /** A flag with a value that stands last, without its value, changes nothing. */
  lemma TrailingValueFlag(argv: seq<string>, a: string)
    requires |argv| >= 2 && Aligned(argv[2..]) && a in ValueFlags
    ensures Parse(argv + [a]) == Parse(argv)
  {
    RestAppend(argv, [a]);
    WalkAppend(argv[2..], [a], NoArgs);
    ApplyUsed(a, "", Parse(argv));
    ApplyValue(a, "", Parse(argv));
  }

  /** An entry that is no flag, the empty one included, is skipped wherever it stands. */
  lemma UnknownIgnored(argv: seq<string>, u: string, ys: seq<string>)
    requires |argv| >= 2 && Aligned(argv[2..]) && !Recognized(u)
    ensures Parse(argv + [u] + ys) == Parse(argv + ys)
  {
    var w := Parse(argv);
    assert argv + [u] + ys == argv + ([u] + ys);
    RestAppend(argv, [u] + ys);
    RestAppend(argv, ys);
    WalkAppend(argv[2..], [u] + ys, NoArgs);
    WalkAppend(argv[2..], ys, NoArgs);
    ApplyUsed(u, NextOf([u] + ys), w);
    ApplyFrame(u, NextOf([u] + ys), w);
    assert ([u] + ys)[1..] == ys;
  }

  /** `Number(text)` of a numeric field, with the conversion given. */
  function NumberOf(n: Option<Num>, number: string -> int): Option<int> {
    if n.Some? then Some(number(n.value.text)) else None
  }

  /** The options `main` hands to `render`: `wrap`, `width`, `color`, `hyperlinks`, `theme`,
      `listIndent` and `quotePrefix`, each only when parsed. */
  function RenderOptionsOf(args: CliArgs, number: string -> int): Options.UserOptions {
    Options.NoOptions.(
      wrap := args.wrap, width := NumberOf(args.width, number), color := args.color,
      hyperlinks := args.hyperlinks, theme := args.theme,
      listIndent := NumberOf(args.listIndent, number), quotePrefix := args.quotePrefix)
  }

  /** The fields `main` does not hand to `render`: those of tables and code blocks, besides
      the files and `help`, which it reads itself. */
  predicate NotRendered(f: Field) {
    f.FTableBorder? || f.FTablePadding? || f.FTableDense? || f.FTableTruncate? || f.FTableEllipsis?
    || f.FCodeBox? || f.FCodeGutter? || f.FCodeWrap? || f.FIn? || f.FOut? || f.FHelp?
  }

  /** A flag for a table or code-block field changes nothing `render` is given; every other
      flag changes at most its own option. */
  lemma RenderOptionsStep(a: string, next: string, args: CliArgs, number: string -> int)
    ensures FieldOf(a).None? || NotRendered(FieldOf(a).value) ==>
      RenderOptionsOf(Apply(a, next, args).args, number) == RenderOptionsOf(args, number)
  {
    ApplyFrame(a, next, args);
  }

  /** `--table-border=` followed by a text without `=` is a flag for `tableBorder` and holds
      that text. */
  lemma BorderFlag(v: string)
    requires '=' !in v
    ensures FieldOf("--table-border=" + v) == Some(FTableBorder)
    ensures AfterEquals("--table-border=" + v) == Some(v)
    ensures "--table-border=" + v !in ValueFlags
  {
    var a := "--table-border=" + v;
    assert StartsWith(a, "--table-border=") by {
      assert a[..15] == "--table-border=";
    }
    PrefixFlagsDistinct(a);
    assert IndexOf(a, '=') == 14 by {
      assert a[14] == '=' && '=' !in a[..14];
    }
    AfterEqualsMeaning(a);
    assert a[15..] == v;
    UpToSeparator(v, AfterEquals(a).value, '=');
  }

  /** `--table-border=` followed by a text without `=` sets `tableBorder` to that text. */
  lemma BorderApply(v: string, next: string, args: CliArgs)
    requires '=' !in v
    ensures "--table-border=" + v !in ValueFlags
    ensures Apply("--table-border=" + v, next, args) == Step(args.(tableBorder := Some(v)), 1)
  {
    var a := "--table-border=" + v;
    BorderFlag(v);
    EffectBorder(a, next, args);
  }

  /** A flag for `tableBorder` sets it to the text after the first `=`. */
  lemma EffectBorder(a: string, next: string, args: CliArgs)
    ensures Effect(Some(FTableBorder), a, next, args) == Step(args.(tableBorder := AfterEquals(a)), 1)
  {
  }

  /** As `main` is written, `--table-border=ascii` is parsed and then dropped: `render` gets
      the same options as without it, so the border stays the default one. */
  lemma TableBorderDropped(argv: seq<string>, v: string, number: string -> int)
    requires |argv| >= 2 && Aligned(argv[2..]) && '=' !in v
    ensures Parse(argv + ["--table-border=" + v]).tableBorder == Some(v)
    ensures RenderOptionsOf(Parse(argv + ["--table-border=" + v]), number) == RenderOptionsOf(Parse(argv), number)
  {
    BorderApply(v, "", Parse(argv));
    ParseSnoc(argv, "--table-border=" + v);
  }

  /** The options `render` is evidently meant to get: every field parsed for it, the table and
      code-block ones included, each only when parsed. */
  function RenderOptionsAll(args: CliArgs, number: string -> int): Options.UserOptions {
    Options.UserOptions(
      args.wrap, NumberOf(args.width, number), args.color, args.hyperlinks, args.theme,
      NumberOf(args.listIndent, number), args.quotePrefix, args.tableBorder,
      NumberOf(args.tablePadding, number), args.tableDense, args.tableTruncate,
      args.tableEllipsis, args.codeBox, args.codeGutter, args.codeWrap)
  }

  /** With every parsed field handed on, `--table-border=ascii` reaches `render`. */
  lemma TableBorderReaches(argv: seq<string>, v: string, number: string -> int)
    requires |argv| >= 2 && Aligned(argv[2..]) && '=' !in v
    ensures RenderOptionsAll(Parse(argv + ["--table-border=" + v]), number).tableBorder == Some(v)
  {
    BorderApply(v, "", Parse(argv));
    ParseSnoc(argv, "--table-border=" + v);
  }
}
