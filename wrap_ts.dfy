/** The word wrapper of `src/wrap.ts`: runs of whitespace and of other characters are appended
    to the current line until a non-whitespace run would overflow it; the line is then pushed
    without its trailing whitespace, after the orphan rule has moved a short function word (or
    a preposition and an article) at its end over to the next line. Lines are trimmed, so the
    model keeps the words of the input rather than its characters. */
module WrapTs {
  import opened Text
  import opened Tokens
  import opened Orphan
  import WrapJs

  /** A line within the width once its trailing whitespace is ignored, or one of at most three
      words: a word wider than the width, after the one or two words the orphan rule carried
      in front of it. Words are never split. */
  predicate Fits(line: string, width: int) {
    |TrimEnd(line)| <= width || |Words(line)| <= 3
  }

  predicate EndsInSpace(s: string) {
    s != [] && IsSpace(s[|s| - 1])
  }

  predicate StartsWithWord(s: string) {
    s != [] && !IsSpace(s[0])
  }

  /** A line as it is pushed: without trailing whitespace and within the width. */
  predicate Pushed(line: string, width: int) {
    TrimEnd(line) == line && Fits(line, width)
  }

  /** What holds of the lines already pushed: each is trimmed and fits, and each after the
      first starts with a word. Stated recursively so that the loop carries it without
      unfolding it. */
  ghost predicate Emitted(lines: seq<string>, width: int) {
    lines == [] ||
      var last := lines[|lines| - 1];
      && Emitted(lines[..|lines| - 1], width)
      && Pushed(last, width)
      && (|lines| > 1 ==> StartsWithWord(last))
  }

  lemma EmittedSnoc(lines: seq<string>, line: string, width: int)
    requires Emitted(lines, width) && Pushed(line, width)
    requires |lines| > 0 ==> StartsWithWord(line)
    ensures Emitted(lines + [line], width)
  {
    assert (lines + [line])[..|lines|] == lines;
  }

  lemma {:induction false} EmittedAll(lines: seq<string>, width: int)
    requires Emitted(lines, width)
    ensures forall j :: 0 <= j < |lines| ==> Pushed(lines[j], width)
    ensures forall j :: 1 <= j < |lines| ==> StartsWithWord(lines[j])
  {
    if lines != [] {
      var init := lines[..|lines| - 1];
      EmittedAll(init, width);
      assert forall j :: 0 <= j < |init| ==> lines[j] == init[j];
    }
  }

  /** The words of the runs read so far grow by the words of the next run: consecutive runs
      meet at whitespace. */
  lemma WordsStep(words: seq<string>, i: nat)
    requires RunList(words) && i < |words|
    ensures Words(Concat(words[..i + 1])) == Words(Concat(words[..i])) + Words(words[i])
  {
    var before := Concat(words[..i]);
    ConcatPrefixStep(words, i);
    if i > 0 {
      Junction(words, i);
    }
    WordsAppend(before, words[i]);
  }

  /** Where the runs read so far meet the next run, one side is whitespace. */
  lemma Junction(words: seq<string>, i: nat)
    requires RunList(words) && 0 < i < |words|
    ensures var b := Concat(words[..i]);
      b != [] && words[i] != [] && (IsSpace(b[|b| - 1]) || IsSpace(words[i][0]))
  {
    var prev := words[i - 1];
    RunAt(words, i);
    RunAt(words, i - 1);
    ConcatPrefixStep(words, i - 1);
    assert words[..i - 1 + 1] == words[..i];
    var b := Concat(words[..i]);
    assert b[|b| - 1] == prev[|prev| - 1];
    assert IsSpace(prev[|prev| - 1]) == IsSpace(prev[0]);
  }

  /** Trimming a line that starts with a word leaves a line that starts with that word. */
  lemma TrimEndStart(s: string)
    requires StartsWithWord(s)
    ensures StartsWithWord(TrimEnd(s)) && TrimEnd(s)[0] == s[0]
  {
    var r := TrimEnd(s);
    if |r| < |s| {
      assert s[|r|..][0] == s[|r|];
    }
  }

  /** A trimmed line, pushed as it is. */
  lemma TrimmedPushed(current: string, width: int)
    requires Fits(current, width)
    ensures Pushed(TrimEnd(current), width)
  {
    var r := TrimEnd(current);
    TrimEndIdle(r);
    WordsTrimEnd(current);
  }

  /** The state of the `wrapText` loop after the first `i` runs: the pushed lines and the
      current line hold the words of those runs, the current line ends in whitespace exactly
      when the last run did, and every line respects the width. */
  ghost predicate WrapState(words: seq<string>, i: nat, lines: seq<string>, current: string, width: int) {
    && i <= |words|
    && AllWords(lines) + Words(current) == Words(Concat(words[..i]))
    && (i == 0 <==> current == [])
    && (i == 0 ==> lines == [])
    && (i > 0 ==> (EndsInSpace(current) <==> AllSpace(words[i - 1])))
    && (|lines| > 0 ==> StartsWithWord(current))
    && Emitted(lines, width)
    && Fits(current, width)
  }

  /** The loop state moves past run `i` once the new lines and current line hold the words
      read so far and keep the shape the state demands. */
  lemma Advance(words: seq<string>, i: nat, lines: seq<string>, current: string,
                lines': seq<string>, next: string, width: int)
    requires RunList(words) && i < |words| && WrapState(words, i, lines, current, width)
    requires AllWords(lines') + Words(next) == AllWords(lines) + Words(current) + Words(words[i])
    requires next != [] && words[i] != [] && next[|next| - 1] == words[i][|words[i]| - 1]
    requires |lines'| > 0 ==> StartsWithWord(next)
    requires Emitted(lines', width) && Fits(next, width)
    ensures WrapState(words, i + 1, lines', next, width)
  {
    WordsStep(words, i);
    RunAt(words, i);
    var w := words[i];
    assert EndsInSpace(next) <==> AllSpace(w) by {
      assert EndsInSpace(next) <==> IsSpace(w[|w| - 1]);
    }
  }

  /** The current line after a run is appended to it. */
  lemma AppendFits(current: string, word: string, width: int)
    requires width > 0 && Fits(current, width) && IsRun(word)
    requires current == [] || Width(current) + Width(word) <= width || AllSpace(word)
    requires Words(current + word) == Words(current) + Words(word)
    ensures Fits(current + word, width)
  {
    if AllSpace(word) {
      TrimEndAppendSpace(current, word);
      WordsOfSpace(word);
    } else if current == [] {
      assert current + word == word;
      WordsOfWord(word);
    } else {
      assert |TrimEnd(current + word)| <= |current + word|;
    }
  }

  /** A run appended to the current line: a word run after a non-empty line follows
      whitespace, so the words of the two simply add up. */
  lemma AppendLine(current: string, word: string, width: int)
    requires width > 0 && Fits(current, width) && IsRun(word)
    requires current == [] || Width(current) + Width(word) <= width || AllSpace(word)
    requires current != [] && !AllSpace(word) ==> EndsInSpace(current)
    ensures Words(current + word) == Words(current) + Words(word)
    ensures Fits(current + word, width)
    ensures (current + word)[|current + word| - 1] == word[|word| - 1]
    ensures current != [] ==> (current + word)[0] == current[0]
  {
    WordsAppend(current, word);
    AppendFits(current, word, width);
  }

  /** One turn of the loop that appends run `i` to the current line. */
  lemma AppendStep(words: seq<string>, i: nat, lines: seq<string>, current: string, width: int)
    requires RunList(words) && i < |words| && WrapState(words, i, lines, current, width)
    requires width > 0
    requires current == [] || Width(current) + Width(words[i]) <= width || AllSpace(words[i])
    ensures WrapState(words, i + 1, lines, current + words[i], width)
  {
    RunAt(words, i);
    if current != [] && !AllSpace(words[i]) {
      WordRunFollowsSpace(words, i);
    }
    AppendLine(current, words[i], width);
    AppendAssoc(AllWords(lines), Words(current), Words(words[i]));
    Advance(words, i, lines, current, lines, current + words[i], width);
  }

  /** The line pushed and the line started when the loop breaks without carrying an orphan. */
  lemma BreakLine(lines: seq<string>, current: string, word: string, width: int)
    requires Emitted(lines, width) && Fits(current, width)
    requires |lines| > 0 ==> StartsWithWord(current)
    requires word != [] && NoSpace(word)
    ensures Emitted(lines + [TrimEnd(current)], width)
    ensures AllWords(lines + [TrimEnd(current)]) + Words(word) == AllWords(lines) + Words(current) + Words(word)
    ensures Fits(word, width) && StartsWithWord(word)
  {
    var line := TrimEnd(current);
    TrimmedPushed(current, width);
    if |lines| > 0 {
      TrimEndStart(current);
    }
    EmittedSnoc(lines, line, width);
    WordsTrimEnd(current);
    AllWordsSnoc(lines, line);
    WordsOfWord(word);
  }

  /** One turn of the loop that breaks in front of run `i` with no orphan to carry over: the
      trimmed current line is pushed and the run starts the next line. */
  lemma BreakStep(words: seq<string>, i: nat, lines: seq<string>, current: string, width: int)
    requires RunList(words) && i < |words| && WrapState(words, i, lines, current, width)
    requires current != [] && !AllSpace(words[i])
    ensures TrimStart(words[i]) == words[i]
    ensures WrapState(words, i + 1, lines + [TrimEnd(current)], words[i], width)
  {
    RunAt(words, i);
    TrimStartIdle(words[i]);
    BreakLine(lines, current, words[i], width);
    Advance(words, i, lines, current, lines + [TrimEnd(current)], words[i], width);
  }

  /** The base the orphan rule leaves behind, pushed as the next line. */
  lemma OrphanBase(lines: seq<string>, current: string, width: int, sp: Split)
    requires Emitted(lines, width) && Fits(current, width)
    requires |lines| > 0 ==> StartsWithWord(current)
    requires OrphanSplit(TrimEnd(current)) == Some(sp)
    ensures Emitted(lines + [sp.base], width)
  {
    var line := TrimEnd(current);
    OrphanSplitKeepsWords(line);
    assert Words(line) == Words(current) by {
      WordsTrimEnd(current);
    }
    assert Pushed(sp.base, width) by {
      TrimEndIdle(line);
    }
    if |lines| > 0 {
      TrimEndStart(current);
      assert sp.base[0] == line[0];
    }
    EmittedSnoc(lines, sp.base, width);
  }

  /** The words of the lines when the base is pushed and the tail starts the next line. */
  lemma OrphanWords(lines: seq<string>, current: string, word: string, sp: Split)
    requires word != [] && NoSpace(word)
    requires OrphanSplit(TrimEnd(current)) == Some(sp)
    ensures AllWords(lines + [sp.base]) + Words(sp.tail + " " + word) == AllWords(lines) + Words(current) + Words(word)
    ensures 2 <= |Words(sp.tail + " " + word)| <= 3
  {
    var line := TrimEnd(current);
    OrphanSplitKeepsWords(line);
    WordsTrimEnd(current);
    assert Words(sp.tail + " " + word) == Words(sp.tail) + [word] by {
      WordsSpaced(sp.tail, " ", word);
      WordsOfWord(word);
    }
    calc {
      AllWords(lines + [sp.base]) + Words(sp.tail + " " + word);
      { AllWordsSnoc(lines, sp.base); }
      AllWords(lines) + Words(sp.base) + (Words(sp.tail) + [word]);
      { AppendAssoc(AllWords(lines) + Words(sp.base), Words(sp.tail), [word]);
        AppendAssoc(AllWords(lines), Words(sp.base), Words(sp.tail)); }
      AllWords(lines) + (Words(sp.base) + Words(sp.tail)) + [word];
      { WordsOfWord(word); }
      AllWords(lines) + Words(current) + Words(word);
    }
  }

  /** The line pushed and the line started when the loop breaks and carries an orphan. */
  lemma OrphanLine(lines: seq<string>, current: string, word: string, width: int, sp: Split)
    requires Emitted(lines, width) && Fits(current, width)
    requires |lines| > 0 ==> StartsWithWord(current)
    requires word != [] && NoSpace(word)
    requires OrphanSplit(TrimEnd(current)) == Some(sp)
    ensures Emitted(lines + [sp.base], width)
    ensures AllWords(lines + [sp.base]) + Words(sp.tail + " " + word) == AllWords(lines) + Words(current) + Words(word)
    ensures Fits(sp.tail + " " + word, width) && StartsWithWord(sp.tail + " " + word)
    ensures (sp.tail + " " + word)[|sp.tail + " " + word| - 1] == word[|word| - 1]
  {
    OrphanBase(lines, current, width, sp);
    OrphanWords(lines, current, word, sp);
    OrphanSplitKeepsWords(TrimEnd(current));
    var next := sp.tail + " " + word;
    assert next[0] == sp.tail[0];
  }

  /** One turn of the loop that breaks in front of run `i` and carries the orphan over: the
      base is pushed and the next line starts with the tail, a space and the run. */
  lemma OrphanStep(words: seq<string>, i: nat, lines: seq<string>, current: string, width: int, sp: Split)
    requires RunList(words) && i < |words| && WrapState(words, i, lines, current, width)
    requires current != [] && !AllSpace(words[i])
    requires OrphanSplit(TrimEnd(current)) == Some(sp)
    ensures TrimStart(words[i]) == words[i]
    ensures WrapState(words, i + 1, lines + [sp.base], sp.tail + " " + words[i], width)
  {
    RunAt(words, i);
    TrimStartIdle(words[i]);
    OrphanLine(lines, current, words[i], width, sp);
    Advance(words, i, lines, current, lines + [sp.base], sp.tail + " " + words[i], width);
  }

  // ----- the loop as a function -----

  /** The state of the `wrapText` loop: the lines pushed so far and the line being filled. */
  datatype Acc = Acc(lines: seq<string>, current: string)

  /** The break in front of the word `next`: the current line is pushed without its trailing
      whitespace or, when the orphan rule finds a tail at its end, the base is pushed and the
      tail moves on, a space and the word after it. */
  function Break(acc: Acc, next: string): Acc {
    var cut := TrimEnd(acc.current);
    match OrphanSplit(cut)
    case Some(sp) => Acc(acc.lines + [sp.base], sp.tail + " " + next)
    case None => Acc(acc.lines + [cut], next)
  }

  /** One turn of the loop on run `word`: a word that does not fit after a non-empty line
      breaks it; any other run is appended. */
  function Step(acc: Acc, word: string, width: int): Acc {
    if acc.current != [] && Width(acc.current) + Width(word) > width && !AllSpace(word)
    then Break(acc, TrimStart(word))
    else Acc(acc.lines, acc.current + word)
  }

  /** The loop over `runs` from the state `acc`. */
  function Fold(runs: seq<string>, acc: Acc, width: int): Acc
    decreases |runs|
  {
    if runs == [] then acc else Fold(runs[1..], Step(acc, runs[0], width), width)
  }

  /** After the loop: the trimmed current line is pushed unless it is empty, and no line at
      all gives one empty line. */
  function Close(acc: Acc): seq<string> {
    var lines := if acc.current != [] then acc.lines + [TrimEnd(acc.current)] else acc.lines;
    if lines == [] then [""] else lines
  }

  /** The lines `wrapText(text, width, wrap)` returns. */
  function Wrapped(text: string, width: int, wrap: bool): seq<string> {
    if !wrap || width <= 0 then [text] else Close(Fold(Runs(text), Acc([], ""), width))
  }

  lemma {:induction false} FoldAppend(xs: seq<string>, ys: seq<string>, acc: Acc, width: int)
    ensures Fold(xs + ys, acc, width) == Fold(ys, Fold(xs, acc, width), width)
    decreases |xs|
  {
    if xs == [] {
      assert xs + ys == ys;
    } else {
      assert (xs + ys)[1..] == xs[1..] + ys;
      FoldAppend(xs[1..], ys, Step(acc, xs[0], width), width);
    }
  }

  /** A line once pushed is never changed: the loop only adds lines. */
  lemma {:induction false} FoldKeepsLines(runs: seq<string>, acc: Acc, width: int)
    ensures var r := Fold(runs, acc, width).lines;
      |acc.lines| <= |r| && r[..|acc.lines|] == acc.lines
    decreases |runs|
  {
    if runs != [] {
      var next := Step(acc, runs[0], width);
      assert |acc.lines| <= |next.lines| && next.lines[..|acc.lines|] == acc.lines;
      FoldKeepsLines(runs[1..], next, width);
    }
  }

  /** While the words still to come fit after the current line, no line is pushed: every run
      is appended to it. */
  lemma {:induction false} FoldFitting(runs: seq<string>, acc: Acc, width: int)
    requires RunList(runs) && acc.current != []
    requires TrimEnd(Concat(runs)) == [] || Width(acc.current) + Width(TrimEnd(Concat(runs))) <= width
    ensures Fold(runs, acc, width) == Acc(acc.lines, acc.current + Concat(runs))
    decreases |runs|
  {
    if runs == [] {
      assert acc.current + Concat(runs) == acc.current;
    } else {
      FittingStep(runs, acc, width);
      FoldFitting(runs[1..], Acc(acc.lines, acc.current + runs[0]), width);
      assert acc.current + runs[0] + Concat(runs[1..]) == acc.current + Concat(runs);
    }
  }

  /** The first run of words that fit is appended, and the words after it still fit. */
  lemma FittingStep(runs: seq<string>, acc: Acc, width: int)
    requires RunList(runs) && runs != [] && acc.current != []
    requires TrimEnd(Concat(runs)) == [] || Width(acc.current) + Width(TrimEnd(Concat(runs))) <= width
    ensures Step(acc, runs[0], width) == Acc(acc.lines, acc.current + runs[0])
    ensures RunList(runs[1..])
    ensures var c := Concat(runs[1..]);
      TrimEnd(c) == [] || Width(acc.current + runs[0]) + Width(TrimEnd(c)) <= width
  {
    var r0, c := runs[0], Concat(runs[1..]);
    assert Concat(runs) == r0 + c;
    TrimEndAppend(r0, c);
    if !AllSpace(r0) {
      // a word run ends in a word, which the trim keeps
      assert NoSpace(r0) && r0 != [];
      TrimEndIdle(r0);
      assert Width(r0) <= Width(TrimEnd(r0 + c));
    }
  }

  /** The current line takes every run up to the first word that does not fit after it, and
      that word breaks it: the line is pushed without its trailing whitespace and the word
      starts the next one or, when the orphan rule finds a tail at its end, only the base is
      pushed and the next line starts with the tail, a space and the word. */
  lemma FillThenBreak(fit: seq<string>, word: string, rest: seq<string>, acc: Acc, width: int)
    requires RunList(fit) && acc.current != []
    requires TrimEnd(Concat(fit)) == [] || Width(acc.current) + Width(TrimEnd(Concat(fit))) <= width
    requires word != [] && NoSpace(word)
    requires Width(acc.current + Concat(fit)) + Width(word) > width
    ensures var cut := TrimEnd(acc.current + Concat(fit));
      var r := Fold(fit + [word] + rest, acc, width);
      && (OrphanSplit(cut).None? ==> r == Fold(rest, Acc(acc.lines + [cut], word), width))
      && (OrphanSplit(cut).Some? ==>
            var sp := OrphanSplit(cut).value;
            r == Fold(rest, Acc(acc.lines + [sp.base], sp.tail + " " + word), width))
  {
    var line := acc.current + Concat(fit);
    assert fit + [word] + rest == fit + ([word] + rest);
    FoldAppend(fit, [word] + rest, acc, width);
    FoldFitting(fit, acc, width);
    assert ([word] + rest)[1..] == rest;
    TrimStartIdle(word);
  }

  /** A text whose words fit within the width stays on one line. */
  lemma FitsOnOneLine(text: string, width: int)
    requires width > 0 && Width(TrimEnd(text)) <= width
    ensures Wrapped(text, width, true) == [TrimEnd(text)]
  {
    var runs := Runs(text);
    if runs != [] {
      var r0, c := runs[0], Concat(runs[1..]);
      assert text == r0 + c;
      TrimEndAppend(r0, c);
      assert Step(Acc([], ""), r0, width) == Acc([], r0);
      FoldFitting(runs[1..], Acc([], r0), width);
    }
  }

  /** The bodies `wrapWithPrefix` emits: each `\n` segment wrapped on its own, in order. */
  function WrappedSegments(segments: seq<string>, width: int): seq<string>
    decreases |segments|
  {
    if segments == [] then []
    else Wrapped(segments[0], width, true) + WrappedSegments(segments[1..], width)
  }

  lemma {:induction false} WrappedSegmentsSnoc(segments: seq<string>, s: string, width: int)
    ensures WrappedSegments(segments + [s], width) == WrappedSegments(segments, width) + Wrapped(s, width, true)
    decreases |segments|
  {
    if segments == [] {
      assert segments + [s] == [s];
      assert WrappedSegments([s], width) == Wrapped(s, width, true) + WrappedSegments([], width);
    } else {
      assert (segments + [s])[1..] == segments[1..] + [s];
      WrappedSegmentsSnoc(segments[1..], s, width);
    }
  }

  lemma SegmentsStep(segments: seq<string>, k: nat, width: int)
    requires k < |segments|
    ensures WrappedSegments(segments[..k + 1], width)
      == WrappedSegments(segments[..k], width) + Wrapped(segments[k], width, true)
  {
    assert segments[..k + 1] == segments[..k] + [segments[k]];
    WrappedSegmentsSnoc(segments[..k], segments[k], width);
  }

  /** A hard newline always ends a line: the text before it is wrapped on its own, and the
      text after it starts a fresh line. */
  lemma HardBreak(a: string, b: string, width: int)
    requires '\n' !in a
    ensures WrappedSegments(Text.Split(a + "\n" + b, '\n'), width)
      == Wrapped(a, width, true) + WrappedSegments(Text.Split(b, '\n'), width)
  {
    Text.SplitAt(a, b, '\n');
    var segs := [a] + Text.Split(b, '\n');
    assert segs[0] == a && segs[1..] == Text.Split(b, '\n');
  }

  /** Text without a newline is wrapped as `wrapText` wraps it. */
  lemma OneSegment(text: string, width: int)
    requires '\n' !in text
    ensures WrappedSegments(Text.Split(text, '\n'), width) == Wrapped(text, width, true)
  {
    Text.SplitNone(text, '\n');
    assert WrappedSegments([text], width) == Wrapped(text, width, true) + WrappedSegments([], width);
  }

  // ----- the loop -----

  /** `wrapText(text, width, wrap)`, with the corrected orphan rule. */
  method WrapText(text: string, width: int, wrap: bool) returns (lines: seq<string>)
    ensures lines == Wrapped(text, width, wrap)
    ensures !wrap || width <= 0 ==> lines == [text]
    ensures |lines| >= 1
    ensures text == [] ==> lines == [""]
    // no word is lost, repeated or split
    ensures wrap && width > 0 ==> AllWords(lines) == Words(text)
    // each line is trimmed and fits, and each line after the first starts with a word
    ensures wrap && width > 0 ==> Emitted(lines, width)
  {
    if !wrap || width <= 0 {
      return [text];
    }
    var words := Runs(text);
    lines := [];
    var current: string := "";
    var currentWidth := 0;
    var i := 0;
    while i < |words|
      invariant i <= |words|
      invariant currentWidth == Width(current)
      invariant WrapState(words, i, lines, current, width)
      invariant Fold(words[i..], Acc(lines, current), width) == Fold(words, Acc([], ""), width)
    {
      var word := words[i];
      var w := Width(word);
      ghost var before := Acc(lines, current);
      assert words[i..][1..] == words[i + 1..];
      if current != "" && currentWidth + w > width && !AllSpace(word) {
        var nextWord := TrimStart(word);
        var currentNoTrail := TrimEnd(current);
        var split := OrphanSplit(currentNoTrail);
        if split.Some? {
          OrphanStep(words, i, lines, current, width, split.value);
          lines := lines + [split.value.base];
          current := split.value.tail + " " + nextWord;
        } else {
          BreakStep(words, i, lines, current, width);
          lines := lines + [currentNoTrail];
          current := nextWord;
        }
        currentWidth := Width(current);
      } else {
        AppendStep(words, i, lines, current, width);
        current := current + word;
        currentWidth := Width(current);
      }
      assert Acc(lines, current) == Step(before, word, width);
      i := i + 1;
    }
    assert words[..i] == words;
    assert words[i..] == [];
    ghost var pushed := lines;
    if current != "" {
      lines := lines + [TrimEnd(current)];
    }
    if |lines| == 0 {
      lines := lines + [""];
    }
    CloseLines(pushed, current, lines, text, width);
  }

  /** The lines `wrapText` returns once its loop is done: the trimmed current line is pushed
      when it is not empty, and an empty input gives one empty line. */
  lemma CloseLines(pushed: seq<string>, current: string, lines: seq<string>, text: string, width: int)
    requires Emitted(pushed, width) && Fits(current, width)
    requires |pushed| > 0 ==> StartsWithWord(current)
    requires AllWords(pushed) + Words(current) == Words(text)
    requires current == [] <==> text == []
    requires current == [] ==> pushed == []
    requires lines == if current != [] then pushed + [TrimEnd(current)] else [""]
    ensures |lines| >= 1
    ensures text == [] ==> lines == [""]
    ensures AllWords(lines) == Words(text)
    ensures Emitted(lines, width)
  {
    if current != [] {
      var last := TrimEnd(current);
      assert Emitted(lines, width) by {
        TrimmedPushed(current, width);
        if |pushed| > 0 {
          TrimEndStart(current);
        }
        EmittedSnoc(pushed, last, width);
      }
      calc {
        AllWords(lines);
        { AllWordsSnoc(pushed, last); }
        AllWords(pushed) + Words(last);
        { WordsTrimEnd(current); }
        Words(text);
      }
    } else {
      assert Emitted(lines, width) by {
        TrimEndIdle("");
        EmittedSnoc([], "", width);
      }
      assert AllWords(lines) == Words(text) by {
        WordsOfSpace(text);
        WordsOfSpace("");
        assert AllWords(lines) == Words("") + AllWords([]);
      }
    }
  }

  /** `Math.max(1, width - visibleWidth(prefix))`: the width left for the text of a line. */
  function InnerWidth(width: int, prefix: string): (w: int)
    ensures w >= 1 && w >= width - Width(prefix)
    ensures w == 1 || w == width - Width(prefix)
  {
    if 1 > width - Width(prefix) then 1 else width - Width(prefix)
  }

  lemma PrefixedAppend(a: seq<string>, b: seq<string>, prefix: string)
    ensures WrapJs.Prefixed(a + b, prefix) == WrapJs.Prefixed(a, prefix) + WrapJs.Prefixed(b, prefix)
  {
    var l, r := WrapJs.Prefixed(a + b, prefix), WrapJs.Prefixed(a, prefix) + WrapJs.Prefixed(b, prefix);
    forall i | 0 <= i < |l| ensures l[i] == r[i] {
      if i < |a| {
        assert (a + b)[i] == a[i];
      } else {
        assert (a + b)[i] == b[i - |a|];
      }
    }
  }

  /** The state of the outer `wrapWithPrefix` loop after `k` segments: the output is the
      prefixed lines, each line fits the inner width, and the lines hold the words of the
      segments read so far. */
  ghost predicate SegmentState(segments: seq<string>, k: nat, out: seq<string>, bodies: seq<string>,
                               prefix: string, width: int) {
    && k <= |segments| && |bodies| >= k
    && out == WrapJs.Prefixed(bodies, prefix)
    && (forall j :: 0 <= j < |bodies| ==> Pushed(bodies[j], width))
    && AllWords(bodies) == AllWords(segments[..k])
  }

  lemma SegmentStep(segments: seq<string>, k: nat, out: seq<string>, bodies: seq<string>,
                    parts: seq<string>, prefix: string, width: int)
    requires k < |segments| && SegmentState(segments, k, out, bodies, prefix, width)
    requires |parts| >= 1 && AllWords(parts) == Words(segments[k])
    requires Emitted(parts, width)
    ensures SegmentState(segments, k + 1, out + WrapJs.Prefixed(parts, prefix), bodies + parts, prefix, width)
  {
    EmittedAll(parts, width);
    SegmentWords(segments, k, bodies, parts);
    PrefixedAppend(bodies, parts, prefix);
    PushedAppend(bodies, parts, width);
  }

  lemma SegmentWords(segments: seq<string>, k: nat, bodies: seq<string>, parts: seq<string>)
    requires k < |segments|
    requires AllWords(bodies) == AllWords(segments[..k])
    requires AllWords(parts) == Words(segments[k])
    ensures AllWords(bodies + parts) == AllWords(segments[..k + 1])
  {
    calc {
      AllWords(bodies + parts);
      { AllWordsAppend(bodies, parts); }
      AllWords(segments[..k]) + Words(segments[k]);
      { AllWordsSnoc(segments[..k], segments[k]); }
      AllWords(segments[..k] + [segments[k]]);
      { assert segments[..k + 1] == segments[..k] + [segments[k]]; }
      AllWords(segments[..k + 1]);
    }
  }

  lemma PushedAppend(bodies: seq<string>, parts: seq<string>, width: int)
    requires forall j :: 0 <= j < |bodies| ==> Pushed(bodies[j], width)
    requires forall j :: 0 <= j < |parts| ==> Pushed(parts[j], width)
    ensures forall j :: 0 <= j < |bodies + parts| ==> Pushed((bodies + parts)[j], width)
  {
    var all := bodies + parts;
    forall j | 0 <= j < |all| ensures Pushed(all[j], width) {
      if j < |bodies| {
        assert all[j] == bodies[j];
      } else {
        assert all[j] == parts[j - |bodies|];
      }
    }
  }

  /** What the caller of `wrapWithPrefix` sees once every segment is done. */
  lemma SegmentsDone(text: string, segments: seq<string>, out: seq<string>, bodies: seq<string>,
                     prefix: string, width: int)
    requires segments == Text.Split(text, '\n')
    requires SegmentState(segments, |segments|, out, bodies, prefix, width)
    ensures WrapJs.AllPrefixed(out, prefix) && WrapJs.Bodies(out, prefix) == bodies
    ensures |out| >= |segments|
    ensures AllWords(bodies) == Words(text)
    ensures forall i :: 0 <= i < |out| ==> Pushed(WrapJs.Bodies(out, prefix)[i], width)
  {
    assert segments[..|segments|] == segments;
    WordsOfSplit(text, '\n');
    WrapJs.PrefixedBodies(bodies, prefix);
  }

  /** `wrapWithPrefix(text, width, wrap, prefix)`: hard newlines split the text first, each
      piece is wrapped at the width the prefix leaves (at least 1), and every output line
      carries the prefix. */
  method WrapWithPrefix(text: string, width: int, wrap: bool, prefix: string)
    returns (out: seq<string>)
    ensures WrapJs.AllPrefixed(out, prefix)
    ensures !wrap ==> WrapJs.Bodies(out, prefix) == Text.Split(text, '\n')
    ensures wrap ==> |out| >= |Text.Split(text, '\n')|
    // with wrapping on, each `\n` segment is wrapped on its own, in order
    ensures wrap ==> WrapJs.Bodies(out, prefix) == WrappedSegments(Text.Split(text, '\n'), InnerWidth(width, prefix))
    // with wrapping on, the words of the text come out in order, and only they
    ensures wrap ==> AllWords(WrapJs.Bodies(out, prefix)) == Words(text)
    ensures wrap ==> forall i :: 0 <= i < |out| ==>
      Pushed(WrapJs.Bodies(out, prefix)[i], InnerWidth(width, prefix))
  {
    var segments := Text.Split(text, '\n');
    if !wrap {
      out := WrapJs.Prefixed(segments, prefix);
      WrapJs.PrefixedBodies(segments, prefix);
      return;
    }
    out := [];
    var w := InnerWidth(width, prefix);
    ghost var bodies: seq<string> := [];
    var k := 0;
    while k < |segments|
      invariant SegmentState(segments, k, out, bodies, prefix, w)
      invariant bodies == WrappedSegments(segments[..k], w)
    {
      var parts := WrapText(segments[k], w, wrap);
      SegmentStep(segments, k, out, bodies, parts, prefix, w);
      SegmentsStep(segments, k, w);
      out := WrapJs.PushPrefixed(out, parts, prefix);
      bodies := bodies + parts;
      k := k + 1;
    }
    assert segments[..k] == segments;
    SegmentsDone(text, segments, out, bodies, prefix, w);
  }
}
