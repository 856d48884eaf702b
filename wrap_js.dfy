/** The plain greedy word wrapper of `src/wrap.js`: whitespace runs are always appended to
    the current line, and a line is broken only in front of a non-whitespace run that would
    overflow. Nothing is trimmed, so the lines join back into the input. */
module WrapJs {
  import opened Text
  import opened Tokens

  /** Everything up to the last word of `line` fits in `width`, or the line is one word
      (followed by whitespace) that is wider on its own: words are never split. */
  predicate Fits(line: string, width: int) {
    |TrimEnd(line)| <= width || NoSpace(TrimEnd(line))
  }

  predicate EndsInSpace(s: string) {
    s != [] && IsSpace(s[|s| - 1])
  }

  predicate StartsWithWord(s: string) {
    s != [] && !IsSpace(s[0])
  }

  /** The lines after `prefix` has been removed from each of them. */
  function Bodies(lines: seq<string>, prefix: string): (r: seq<string>)
    ensures |r| == |lines|
  {
    seq(|lines|, i requires 0 <= i < |lines| =>
      if |prefix| <= |lines[i]| then lines[i][|prefix|..] else lines[i])
  }

  predicate AllPrefixed(lines: seq<string>, prefix: string) {
    forall i :: 0 <= i < |lines| ==> |prefix| <= |lines[i]| && lines[i][..|prefix|] == prefix
  }

  lemma FitsAppendSpace(current: string, word: string, width: int)
    requires Fits(current, width) && AllSpace(word)
    ensures Fits(current + word, width)
  {
    TrimEndAppendSpace(current, word);
  }

  /** Line `prev` was broken only because the word `next` starts with did not fit after it. */
  predicate Overflows(prev: string, next: string, width: int) {
    Width(prev) + Width(LeadWord(next)) > width
  }

  /** What holds of the lines already emitted: each ends in whitespace and respects the
      width, and each after the first starts with a word that did not fit on the line before.
      Stated recursively so that the loop below carries it without unfolding it. */
  ghost predicate Emitted(lines: seq<string>, width: int) {
    lines == [] ||
      var last := lines[|lines| - 1];
      && Emitted(lines[..|lines| - 1], width)
      && EndsInSpace(last) && Fits(last, width)
      && (|lines| > 1 ==> StartsWithWord(last) && Overflows(lines[|lines| - 2], last, width))
  }

  lemma EmittedSnoc(lines: seq<string>, line: string, width: int)
    requires Emitted(lines, width)
    requires EndsInSpace(line) && Fits(line, width)
    requires |lines| > 0 ==> StartsWithWord(line) && Overflows(lines[|lines| - 1], line, width)
    ensures Emitted(lines + [line], width)
  {
    assert (lines + [line])[..|lines|] == lines;
  }

  lemma {:induction false} EmittedAll(lines: seq<string>, width: int)
    requires Emitted(lines, width)
    ensures forall j :: 0 <= j < |lines| ==> EndsInSpace(lines[j]) && Fits(lines[j], width)
    ensures forall j :: 1 <= j < |lines| ==> StartsWithWord(lines[j]) && Overflows(lines[j - 1], lines[j], width)
  {
    if lines != [] {
      var n := |lines| - 1;
      var init := lines[..n];
      EmittedAll(init, width);
      forall j | 0 <= j < n
        ensures EndsInSpace(lines[j]) && Fits(lines[j], width)
      {
        assert lines[j] == init[j];
      }
      forall j | 1 <= j < n
        ensures StartsWithWord(lines[j]) && Overflows(lines[j - 1], lines[j], width)
      {
        assert lines[j] == init[j] && lines[j - 1] == init[j - 1];
      }
    }
  }

  /** The current line stays within the width after a run is appended to it, and it ends
      in whitespace exactly when that run is whitespace. */
  lemma AppendKeepsFit(current: string, word: string, width: int)
    requires width > 0 && Fits(current, width) && IsRun(word)
    requires current == [] || Width(current) + Width(word) <= width || AllSpace(word)
    ensures Fits(current + word, width)
    ensures EndsInSpace(current + word) <==> AllSpace(word)
    ensures StartsWithWord(current) ==> StartsWithWord(current + word)
  {
    ghost var next := current + word;
    assert next[|next| - 1] == word[|word| - 1];
    assert current != [] ==> next[0] == current[0];
    if AllSpace(word) {
      FitsAppendSpace(current, word, width);
    } else if current != [] {
      assert |TrimEnd(next)| <= |next|;
    } else {
      assert next == word;
      TrimEndIdle(word);
    }
  }

  /** Breaking in front of a word: the current line is emitted and the word starts the next
      one, unchanged by the leading-whitespace trim. */
  lemma BreakKeepsFit(lines: seq<string>, current: string, word: string, width: int)
    requires Emitted(lines, width) && Fits(current, width) && EndsInSpace(current)
    requires |lines| > 0 ==> StartsWithWord(current) && Overflows(lines[|lines| - 1], current, width)
    requires IsRun(word) && !AllSpace(word) && Width(current) + Width(word) > width
    ensures Emitted(lines + [current], width)
    ensures Concat(lines + [current]) == Concat(lines) + current
    ensures TrimStart(word) == word
    ensures StartsWithWord(word) && !EndsInSpace(word) && Fits(word, width)
    ensures Overflows(current, word, width)
  {
    EmittedSnoc(lines, current, width);
    ConcatSnoc(lines, current);
    TrimStartIdle(word);
    TrimEndIdle(word);
    WordEndAt(word, 0, |word|);
  }

  /** The state of the `wrapText` loop after the first `i` runs: the emitted lines and the
      current line hold exactly those runs, the current line ends in whitespace exactly when
      the last run did, and every line respects the width. */
  ghost predicate WrapState(words: seq<string>, i: nat, lines: seq<string>, current: string, width: int) {
    && i <= |words|
    && Concat(lines) + current == Concat(words[..i])
    && (i == 0 <==> current == [])
    && (i > 0 ==> (EndsInSpace(current) <==> AllSpace(words[i - 1])))
    && (|lines| > 0 ==> StartsWithWord(current) && Overflows(lines[|lines| - 1], current, width))
    && Emitted(lines, width)
    && Fits(current, width)
  }

  /** One turn of the loop that breaks in front of run `i`. */
  lemma BreakStep(words: seq<string>, i: nat, lines: seq<string>, current: string, width: int)
    requires RunList(words) && i < |words| && WrapState(words, i, lines, current, width)
    requires current != [] && !AllSpace(words[i]) && Width(current) + Width(words[i]) > width
    ensures TrimStart(words[i]) == words[i]
    ensures WrapState(words, i + 1, lines + [current], words[i], width)
  {
    var word := words[i];
    RunAt(words, i);
    ConcatPrefixStep(words, i);
    BreakKeepsFit(lines, current, word, width);
  }

  /** One turn of the loop that appends run `i` to the current line. */
  lemma AppendStep(words: seq<string>, i: nat, lines: seq<string>, current: string, width: int)
    requires RunList(words) && i < |words| && WrapState(words, i, lines, current, width)
    requires width > 0
    requires current == [] || Width(current) + Width(words[i]) <= width || AllSpace(words[i])
    ensures WrapState(words, i + 1, lines, current + words[i], width)
  {
    var word := words[i];
    RunAt(words, i);
    ConcatPrefixStep(words, i);
    AppendKeepsFit(current, word, width);
    AppendAssoc(Concat(lines), current, word);
    if |lines| > 0 {
      if |LeadWord(current)| == |current| {
        // a line that is one word so far ends in it, so whitespace comes next
        assert current[|current| - 1] == LeadWord(current)[|current| - 1];
      }
      LeadWordAppend(current, word);
    }
  }

  // ----- the loop as a function -----

  /** The state of the `wrapText` loop: the lines pushed so far and the current line. */
  datatype Acc = Acc(lines: seq<string>, current: string)

  /** One turn of the loop on run `word`: a word that does not fit after a non-empty line
      pushes that line as it is and starts the next one; any other run is appended. */
  function Step(acc: Acc, word: string, width: int): Acc {
    if acc.current != [] && Width(acc.current) + Width(word) > width && !AllSpace(word)
    then Acc(acc.lines + [acc.current], TrimStart(word))
    else Acc(acc.lines, acc.current + word)
  }

  /** The loop over `runs` from the state `acc`. */
  function Fold(runs: seq<string>, acc: Acc, width: int): Acc
    decreases |runs|
  {
    if runs == [] then acc else Fold(runs[1..], Step(acc, runs[0], width), width)
  }

  /** After the loop: the current line is pushed unless it is empty, and no line at all
      gives one empty line. */
  function Close(acc: Acc): seq<string> {
    var lines := if acc.current != [] then acc.lines + [acc.current] else acc.lines;
    if lines == [] then [""] else lines
  }

  /** The lines `wrapText(text, width, wrap)` returns. */
  function Wrapped(text: string, width: int, wrap: bool): seq<string> {
    if !wrap || width <= 0 then [text] else Close(Fold(Runs(text), Acc([], ""), width))
  }

  /** The bodies `wrapWithPrefix` emits: each `\n` segment wrapped on its own, in order. */
  function WrappedSegments(segments: seq<string>, width: int): seq<string>
    decreases |segments|
  {
    if segments == [] then []
    else Wrapped(segments[0], width, true) + WrappedSegments(segments[1..], width)
  }

  lemma {:induction false} WrappedSegmentsSnoc(segments: seq<string>, s: string, width: int)
    ensures WrappedSegments(segments + [s], width) == WrappedSegments(segments, width) + Wrapped(s, width, true)
    decreases |segments|
  {
    if segments == [] {
      assert segments + [s] == [s];
      assert WrappedSegments([s], width) == Wrapped(s, width, true) + WrappedSegments([], width);
    } else {
      assert (segments + [s])[1..] == segments[1..] + [s];
      WrappedSegmentsSnoc(segments[1..], s, width);
    }
  }

  lemma SegmentsStep(segments: seq<string>, k: nat, width: int)
    requires k < |segments|
    ensures WrappedSegments(segments[..k + 1], width)
      == WrappedSegments(segments[..k], width) + Wrapped(segments[k], width, true)
  {
    assert segments[..k + 1] == segments[..k] + [segments[k]];
    WrappedSegmentsSnoc(segments[..k], segments[k], width);
  }

  /** A hard newline always ends a line: the text before it is wrapped on its own, and the
      text after it starts a fresh line. */
  lemma HardBreak(a: string, b: string, width: int)
    requires '\n' !in a
    ensures WrappedSegments(Split(a + "\n" + b, '\n'), width)
      == Wrapped(a, width, true) + WrappedSegments(Split(b, '\n'), width)
  {
    SplitAt(a, b, '\n');
    var segs := [a] + Split(b, '\n');
    assert segs[0] == a && segs[1..] == Split(b, '\n');
  }

  /** Text without a newline is wrapped as `wrapText` wraps it. */
  lemma OneSegment(text: string, width: int)
    requires '\n' !in text
    ensures WrappedSegments(Split(text, '\n'), width) == Wrapped(text, width, true)
  {
    SplitNone(text, '\n');
    assert WrappedSegments([text], width) == Wrapped(text, width, true) + WrappedSegments([], width);
  }

  // ----- the loop -----

  /** `wrapText(text, width, wrap)`. */
  method WrapText(text: string, width: int, wrap: bool) returns (lines: seq<string>)
    ensures lines == Wrapped(text, width, wrap)
    ensures !wrap || width <= 0 ==> lines == [text]
    ensures |lines| >= 1
    ensures text == [] ==> lines == [""]
    ensures text != [] ==> forall i :: 0 <= i < |lines| ==> lines[i] != []
    // lossless: the lines join back into the input
    ensures Concat(lines) == text
    // a break happens only between a whitespace run and the word that follows it
    ensures wrap && width > 0 ==> forall i :: 0 <= i < |lines| - 1 ==> EndsInSpace(lines[i])
    ensures wrap && width > 0 ==> forall i :: 1 <= i < |lines| ==> StartsWithWord(lines[i])
    ensures wrap && width > 0 ==> forall i :: 0 <= i < |lines| ==> Fits(lines[i], width)
    // a line is broken only when the next word does not fit after it
    ensures wrap && width > 0 ==> forall i :: 0 <= i < |lines| - 1 ==>
      Width(lines[i]) + Width(LeadWord(lines[i + 1])) > width
  {
    if !wrap || width <= 0 {
      lines := [text];
      assert Concat(lines) == text + Concat([]);
      return;
    }
    var words := Runs(text);
    var current;
    lines, current := WrapRuns(words, width);
    assert words[..|words|] == words;
    ghost var emitted := lines;
    if current != "" {
      lines := lines + [current];
    }
    if |lines| == 0 {
      lines := lines + [""];
    }
    CloseLines(emitted, current, lines, text, width);
  }

  /** The `for` loop of `wrapText` over the runs: it leaves the lines pushed and the current
      line that the fold computes, with the loop's state kept. */
  method WrapRuns(words: seq<string>, width: int) returns (lines: seq<string>, current: string)
    requires RunList(words) && width > 0
    ensures Acc(lines, current) == Fold(words, Acc([], ""), width)
    ensures WrapState(words, |words|, lines, current, width)
  {
    lines := [];
    current := "";
    var currentWidth := 0;
    var i := 0;
    while i < |words|
      invariant i <= |words|
      invariant currentWidth == Width(current)
      invariant WrapState(words, i, lines, current, width)
      invariant Fold(words[i..], Acc(lines, current), width) == Fold(words, Acc([], ""), width)
    {
      var word := words[i];
      var w := Width(word);
      ghost var before := Acc(lines, current);
      StateStep(words, i, lines, current, width);
      if current != "" && currentWidth + w > width && !AllSpace(word) {
        lines := lines + [current];
        current := TrimStart(word);
        currentWidth := Width(current);
      } else {
        current := current + word;
        currentWidth := Width(current);
      }
      FoldStep(words, i, before, Acc(lines, current), width);
      i := i + 1;
    }
    assert words[i..] == [];
  }

  /** One turn of the loop keeps its state. */
  lemma StateStep(words: seq<string>, i: nat, lines: seq<string>, current: string, width: int)
    requires RunList(words) && i < |words| && WrapState(words, i, lines, current, width)
    requires width > 0
    ensures var a := Step(Acc(lines, current), words[i], width);
      WrapState(words, i + 1, a.lines, a.current, width)
  {
    var word := words[i];
    if current != [] && Width(current) + Width(word) > width && !AllSpace(word) {
      BreakStep(words, i, lines, current, width);
    } else {
      AppendStep(words, i, lines, current, width);
    }
  }

  lemma FoldStep(words: seq<string>, i: nat, acc: Acc, next: Acc, width: int)
    requires i < |words| && next == Step(acc, words[i], width)
    ensures Fold(words[i..], acc, width) == Fold(words[i + 1..], next, width)
  {
    assert words[i..][1..] == words[i + 1..];
  }

  /** The lines `wrapText` returns once its loop is done: the current line is pushed when it
      is not empty, and an empty input gives one empty line. */
  lemma CloseLines(emitted: seq<string>, current: string, lines: seq<string>, text: string, width: int)
    requires Emitted(emitted, width) && Fits(current, width)
    requires |emitted| > 0 ==> StartsWithWord(current) && Overflows(emitted[|emitted| - 1], current, width)
    requires Concat(emitted) + current == text
    requires current == [] ==> emitted == []
    requires lines == if current != [] then emitted + [current] else [""]
    ensures |lines| >= 1
    ensures text == [] ==> lines == [""]
    ensures text != [] ==> forall i :: 0 <= i < |lines| ==> lines[i] != []
    ensures Concat(lines) == text
    ensures forall i :: 0 <= i < |lines| - 1 ==> EndsInSpace(lines[i])
    ensures forall i :: 1 <= i < |lines| ==> StartsWithWord(lines[i])
    ensures forall i :: 0 <= i < |lines| ==> Fits(lines[i], width)
    ensures forall i :: 0 <= i < |lines| - 1 ==> Width(lines[i]) + Width(LeadWord(lines[i + 1])) > width
  {
    EmittedAll(emitted, width);
    if current != [] {
      ConcatSnoc(emitted, current);
      assert forall i :: 0 <= i < |emitted| ==> lines[i] == emitted[i];
      assert lines[|emitted|] == current;
    } else {
      assert Concat(lines) == "" + Concat([]);
      assert Fits("", width);
    }
  }

  /** Splitting on `"\n"` keeps every character except the newlines. */
  lemma {:induction false} ConcatSplitDropsNewlines(s: string)
    ensures Concat(Split(s, '\n')) == RemoveNewlines(s)
    decreases |s|
  {
    var k := IndexOf(s, '\n');
    if k != -1 {
      var head, tail := s[..k], s[k + 1..];
      var rest := Split(tail, '\n');
      assert Split(s, '\n') == [head] + rest;
      assert ([head] + rest)[1..] == rest;
      assert Concat([head] + rest) == head + Concat(rest);
      ConcatSplitDropsNewlines(tail);
      RemoveNewlinesAround(s, k);
    } else {
      RemoveNewlinesAbsent(s);
      assert Concat([s]) == s + Concat([]);
    }
  }

  lemma RemoveNewlinesAround(s: string, k: nat)
    requires k < |s| && s[k] == '\n' && '\n' !in s[..k]
    ensures RemoveNewlines(s) == s[..k] + RemoveNewlines(s[k + 1..])
  {
    var head, t := s[..k], s[k..];
    TakeDrop(s, k);
    assert t[0] == '\n' && t[1..] == s[k + 1..];
    RemoveNewlinesAppend(head, t);
    RemoveNewlinesAbsent(head);
  }

  /** `s` with every `"\n"` deleted. */
  function RemoveNewlines(s: string): (r: string)
    ensures '\n' !in r
  {
    if s == [] then [] else (if s[0] == '\n' then [] else [s[0]]) + RemoveNewlines(s[1..])
  }

  lemma {:induction false} RemoveNewlinesAppend(a: string, b: string)
    ensures RemoveNewlines(a + b) == RemoveNewlines(a) + RemoveNewlines(b)
  {
    if a == [] {
      assert a + b == b;
    } else {
      var h := if a[0] == '\n' then [] else [a[0]];
      assert (a + b)[0] == a[0] && (a + b)[1..] == a[1..] + b;
      assert RemoveNewlines(a + b) == h + RemoveNewlines(a[1..] + b);
      RemoveNewlinesAppend(a[1..], b);
      assert RemoveNewlines(a) == h + RemoveNewlines(a[1..]);
    }
  }

  lemma {:induction false} RemoveNewlinesAbsent(s: string)
    requires '\n' !in s
    ensures RemoveNewlines(s) == s
  {
    if s != [] {
      RemoveNewlinesAbsent(s[1..]);
    }
  }

  /** Each output line is the prefix followed by the matching body, and each body fits.
      Stated recursively so that the loop below carries it without unfolding it. */
  ghost predicate Carried(out: seq<string>, bodies: seq<string>, prefix: string, width: int) {
    |out| == |bodies| &&
      (out == [] ||
        (Carried(out[..|out| - 1], bodies[..|bodies| - 1], prefix, width)
         && out[|out| - 1] == prefix + bodies[|bodies| - 1]
         && Fits(bodies[|bodies| - 1], width)))
  }

  lemma CarriedSnoc(out: seq<string>, bodies: seq<string>, prefix: string, body: string, width: int)
    requires Carried(out, bodies, prefix, width) && Fits(body, width)
    ensures Carried(out + [prefix + body], bodies + [body], prefix, width)
  {
    assert (out + [prefix + body])[..|out|] == out;
    assert (bodies + [body])[..|bodies|] == bodies;
  }

  lemma {:induction false} CarriedAll(out: seq<string>, bodies: seq<string>, prefix: string, width: int)
    requires Carried(out, bodies, prefix, width)
    ensures |out| == |bodies|
    ensures forall i :: 0 <= i < |out| ==> out[i] == prefix + bodies[i] && Fits(bodies[i], width)
  {
    if out != [] {
      var n := |out| - 1;
      CarriedAll(out[..n], bodies[..n], prefix, width);
      assert forall i :: 0 <= i < n ==> out[i] == out[..n][i] && bodies[i] == bodies[..n][i];
    }
  }

  /** Each of `parts` with `prefix` in front. */
  function Prefixed(parts: seq<string>, prefix: string): (r: seq<string>)
    ensures |r| == |parts|
    ensures forall i :: 0 <= i < |r| ==> r[i] == prefix + parts[i]
  {
    seq(|parts|, i requires 0 <= i < |parts| => prefix + parts[i])
  }

  lemma PrefixedSnoc(parts: seq<string>, prefix: string)
    requires parts != []
    ensures Prefixed(parts, prefix)
      == Prefixed(parts[..|parts| - 1], prefix) + [prefix + parts[|parts| - 1]]
  {
  }

  /** Pushing the wrapped parts of one more segment keeps the pairing. */
  lemma {:induction false} CarriedAppend(out: seq<string>, bodies: seq<string>, parts: seq<string>, prefix: string, width: int)
    requires Carried(out, bodies, prefix, width)
    requires forall i :: 0 <= i < |parts| ==> Fits(parts[i], width)
    ensures Carried(out + Prefixed(parts, prefix), bodies + parts, prefix, width)
    decreases |parts|
  {
    if parts == [] {
      assert out + Prefixed(parts, prefix) == out;
      assert bodies + parts == bodies;
    } else {
      var n := |parts| - 1;
      CarriedAppend(out, bodies, parts[..n], prefix, width);
      CarriedAppendLast(out, bodies, parts, prefix, width);
    }
  }

  lemma CarriedAppendLast(out: seq<string>, bodies: seq<string>, parts: seq<string>, prefix: string, width: int)
    requires parts != []
    requires Carried(out + Prefixed(parts[..|parts| - 1], prefix), bodies + parts[..|parts| - 1], prefix, width)
    requires Fits(parts[|parts| - 1], width)
    ensures Carried(out + Prefixed(parts, prefix), bodies + parts, prefix, width)
  {
    var n := |parts| - 1;
    CarriedSnoc(out + Prefixed(parts[..n], prefix), bodies + parts[..n], prefix, parts[n], width);
    PrefixedSnoc(parts, prefix);
    AppendSnoc(out, Prefixed(parts[..n], prefix), prefix + parts[n]);
    assert parts == parts[..n] + [parts[n]];
    AppendSnoc(bodies, parts[..n], parts[n]);
  }

  /** The inner loop of `wrapWithPrefix`: every wrapped part is pushed with the prefix. */
  method PushPrefixed(out: seq<string>, parts: seq<string>, prefix: string) returns (r: seq<string>)
    ensures r == out + Prefixed(parts, prefix)
  {
    r := out;
    var j := 0;
    while j < |parts|
      invariant 0 <= j <= |parts|
      invariant r == out + Prefixed(parts[..j], prefix)
    {
      assert Prefixed(parts[..j + 1], prefix) == Prefixed(parts[..j], prefix) + [prefix + parts[j]];
      r := r + [prefix + parts[j]];
      j := j + 1;
    }
    assert parts[..j] == parts;
  }

  /** The state of the outer `wrapWithPrefix` loop after `k` segments. */
  ghost predicate PrefixState(segments: seq<string>, k: nat, out: seq<string>, bodies: seq<string>, prefix: string, width: int) {
    && k <= |segments|
    && |out| >= k
    && Carried(out, bodies, prefix, width)
    && Concat(bodies) == Concat(segments[..k])
  }

  lemma PrefixStep(segments: seq<string>, k: nat, out: seq<string>, bodies: seq<string>, parts: seq<string>, prefix: string, width: int)
    requires k < |segments| && PrefixState(segments, k, out, bodies, prefix, width)
    requires |parts| >= 1 && Concat(parts) == segments[k]
    requires forall i :: 0 <= i < |parts| ==> Fits(parts[i], width)
    ensures PrefixState(segments, k + 1, out + Prefixed(parts, prefix), bodies + parts, prefix, width)
  {
    CarriedAppend(out, bodies, parts, prefix, width);
    ConcatAppend(bodies, parts);
    ConcatPrefixStep(segments, k);
  }

  /** `wrapWithPrefix(text, width, wrap, prefix)`: hard newlines split the text first, each
      piece is wrapped at the width left over by the prefix (at least 1), and every output line
      carries the prefix. */
  method WrapWithPrefix(text: string, width: int, wrap: bool, prefix: string)
    returns (out: seq<string>)
    ensures AllPrefixed(out, prefix)
    ensures !wrap ==> |out| == |Split(text, '\n')|
    ensures !wrap ==> Bodies(out, prefix) == Split(text, '\n')
    ensures wrap ==> |out| >= |Split(text, '\n')|
    // with wrapping on, each `\n` segment is wrapped on its own, in order
    ensures wrap ==>
      Bodies(out, prefix) == WrappedSegments(Split(text, '\n'), if width - Width(prefix) > 1 then width - Width(prefix) else 1)
    // with wrapping on, no character other than the hard newlines is lost or added
    ensures wrap ==> Concat(Bodies(out, prefix)) == RemoveNewlines(text)
    ensures wrap ==> forall i :: 0 <= i < |out| ==>
      Fits(Bodies(out, prefix)[i], if width - Width(prefix) > 1 then width - Width(prefix) else 1)
  {
    var segments := Split(text, '\n');
    if !wrap {
      out := Prefixed(segments, prefix);
      PrefixedBodies(segments, prefix);
      return;
    }
    out := [];
    var w := if 1 > width - Width(prefix) then 1 else width - Width(prefix);
    ghost var bodies: seq<string> := [];
    var k := 0;
    while k < |segments|
      invariant PrefixState(segments, k, out, bodies, prefix, w)
      invariant bodies == WrappedSegments(segments[..k], w)
    {
      var line := segments[k];
      var parts := WrapText(line, w, wrap);
      PrefixStep(segments, k, out, bodies, parts, prefix, w);
      SegmentsStep(segments, k, w);
      out := PushPrefixed(out, parts, prefix);
      bodies := bodies + parts;
      k := k + 1;
    }
    assert segments[..k] == segments;
    ConcatSplitDropsNewlines(text);
    CarriedBodies(out, bodies, prefix, w);
  }

  lemma PrefixedBodies(parts: seq<string>, prefix: string)
    ensures AllPrefixed(Prefixed(parts, prefix), prefix)
    ensures Bodies(Prefixed(parts, prefix), prefix) == parts
  {
    var out := Prefixed(parts, prefix);
    forall i | 0 <= i < |out| ensures Bodies(out, prefix)[i] == parts[i] {
      assert out[i] == prefix + parts[i];
    }
  }

  /** What the caller of `wrapWithPrefix` sees of a carried pair. */
  lemma CarriedBodies(out: seq<string>, bodies: seq<string>, prefix: string, width: int)
    requires Carried(out, bodies, prefix, width)
    ensures AllPrefixed(out, prefix)
    ensures Bodies(out, prefix) == bodies
    ensures forall i :: 0 <= i < |bodies| ==> Fits(bodies[i], width)
  {
    CarriedAll(out, bodies, prefix, width);
    forall i | 0 <= i < |out| ensures Bodies(out, prefix)[i] == bodies[i] {
      assert out[i] == prefix + bodies[i];
    }
  }
}
