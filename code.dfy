/** Code blocks and thematic breaks of `src/render.js` with colour off and no highlighter: the
    optional line-number gutter, and the box drawn around the block. `"─".repeat(n)` throws a
    `RangeError` for a negative `n`; that outcome is `None`. */
module Code {
  import opened Text

  const HrWidth: int := 40

  /** `renderHr`: an em-dash rule as wide as the wrapping width, but at most 40 columns. */
  function RenderHr(wrap: bool, width: Option<int>): (r: Option<string>)
    ensures r.None? <==> wrap && width.Some? && width.value < 0
    ensures r.Some? ==> 1 <= |r.value| <= HrWidth + 1 && r.value[|r.value| - 1] == '\n'
    ensures r.Some? ==> forall i :: 0 <= i < |r.value| - 1 ==> r.value[i] == '—'
    // the full 40 columns unless a narrower wrapping width is set
    ensures r.Some? && (!wrap || width.None? || width.value >= HrWidth) ==> |r.value| == HrWidth + 1
    ensures r.Some? && wrap && width.Some? && width.value < HrWidth ==> |r.value| == width.value + 1
  {
    var w := if wrap then (if width.Some? && width.value < HrWidth then width.value else HrWidth) else HrWidth;
    if w < 0 then None else Some(Repeat('—', w) + "\n")
  }

  /** The options a code block reads. */
  datatype CodeOptions = CodeOptions(codeGutter: bool, codeBox: bool, codeWrap: bool, width: Option<int>)

  /** One line behind its right-aligned number in a gutter of `digits` columns. */
  function NumberedLine(line: string, idx: nat, digits: nat): string {
    PadStart(IntToString(idx + 1), digits) + " " + line
  }

  /** The lines of the block, numbered when the gutter is on; the gutter is as wide as the
      number of the last line, so the numbers end in the same column and the code starts in
      the same column on every line. */
  function ContentLines(lines: seq<string>, gutter: bool): (r: seq<string>)
    ensures |r| == |lines|
    ensures !gutter ==> r == lines
    ensures gutter ==> forall i :: 0 <= i < |r| ==> NumberedRight(lines[i], i, DigitCount(|lines|), r[i])
  {
    if !gutter then lines
    else
      var d := DigitCount(|lines|);
      var r := seq(|lines|, i requires 0 <= i < |lines| => NumberedLine(lines[i], i, d));
      assert forall i :: 0 <= i < |r| ==> NumberedRight(lines[i], i, d, r[i]) by {
        forall i | 0 <= i < |r| ensures NumberedRight(lines[i], i, d, r[i]) {
          DigitCountMonotone(i + 1, |lines|);
          NumberedLineLayout(lines[i], i, d);
        }
      }
      r
  }

  /** `s` is `line` numbered `idx + 1` in a gutter of `d` columns, the number right-aligned. */
  predicate NumberedRight(line: string, idx: nat, d: nat, s: string) {
    && DigitCount(idx + 1) <= d
    && |s| == d + 1 + |line|
    && s[d - DigitCount(idx + 1)..d] == NatToString(idx + 1)
    && Blank(s[..d - DigitCount(idx + 1)])
    && s[d] == ' ' && s[d + 1..] == line
  }

  lemma NumberedLineLayout(line: string, idx: nat, d: nat)
    requires DigitCount(idx + 1) <= d
    ensures NumberedRight(line, idx, d, NumberedLine(line, idx, d))
  {
    var num := PadStart(IntToString(idx + 1), d);
    var s := NumberedLine(line, idx, d);
    assert |num| == d;
    assert s[..d] == num;
    assert s[d + 1..] == line;
    assert s[d - DigitCount(idx + 1)..d] == num[d - DigitCount(idx + 1)..];
  }

  /** The widest line, or 0: `Math.max(...widths, 0)`. */
  function MaxWidth(lines: seq<string>): (m: nat)
    ensures forall i :: 0 <= i < |lines| ==> |lines[i]| <= m
    ensures m == 0 || exists i :: 0 <= i < |lines| && |lines[i]| == m
  {
    if lines == [] then 0
    else
      var m := MaxWidth(lines[1..]);
      if |lines[0]| >= m then |lines[0]| else m
  }

  /** `[lang] ` above the block when a language is given. */
  function TopLang(lang: string): (r: string)
    ensures lang == [] ==> r == []
    ensures lang != [] ==> |r| == |lang| + 3 && r[0] == '[' && r[1..|lang| + 1] == lang && r[|lang| + 1..] == "] "
  {
    if lang == [] then [] else "[" + lang + "] "
  }

  /** The width of the rule: the inner width, but never narrower than the language tag. With
      `codeWrap` the inner width is the widest line capped by the wrapping width; without it,
      the widest line or the language with its brackets. */
  function RuleWidth(content: seq<string>, lang: string, codeWrap: bool, width: Option<int>): (h: int)
    ensures h >= |TopLang(lang)|
    ensures !codeWrap ==> h >= MaxWidth(content)
    ensures codeWrap ==> h >= MaxWidth(content) || (width.Some? && h >= width.value)
  {
    var maxLine := MaxWidth(content);
    var inner :=
      if codeWrap then (if width.Some? && width.value < maxLine then width.value else maxLine)
      else (if lang != [] && |lang| + 2 > maxLine then |lang| + 2 else maxLine);
    if inner >= |TopLang(lang)| then inner else |TopLang(lang)|
  }

  /** The box as its top border, body lines and bottom border. */
  datatype Box = Box(top: string, body: seq<string>, bottom: string)

  /** One body line: the line between `│ ` and ` │`, padded with spaces up to the rule width. */
  function BoxLine(ln: string, h: nat): (r: string)
    ensures |r| >= 4 && r[..2] == "│ " && r[|r| - 2..] == " │"
  {
    var pad := Spaces(if h > |ln| then h - |ln| else 0);
    var r := "│ " + ln + pad + " │";
    assert r == "│ " + (ln + pad + " │");
    r
  }

  /** The box around `content`. It always exists: the rule is never narrower than the
      language tag, so no `repeat` count is negative. */
  function MakeBox(content: seq<string>, lang: string, codeWrap: bool, width: Option<int>): (b: Box)
    ensures |b.top| >= 3 && b.top[..2] == "┌ " && b.top[|b.top| - 1] == '┐'
    ensures |b.bottom| >= 3 && b.bottom[0] == '└' && b.bottom[|b.bottom| - 1] == '┘'
    ensures |b.body| == |content|
    ensures forall i :: 0 <= i < |b.body| ==>
      |b.body[i]| >= 4 && b.body[i][..2] == "│ " && b.body[i][|b.body[i]| - 2..] == " │"
  {
    var h := RuleWidth(content, lang, codeWrap, width);
    var topLang := TopLang(lang);
    var rule := Repeat('─', h);
    var top := "┌ " + topLang + rule[|topLang|..] + "┐";
    assert top[..2] == "┌ ";
    var body := seq(|content|, i requires 0 <= i < |content| => BoxLine(content[i], h));
    Box(top, body, "└" + Repeat('─', h + 1) + "┘")
  }

  /** A body line holds its line after `│ ` and is 4 columns wider than the wider of the line
      and the rule. */
  lemma BoxLineLayout(ln: string, h: nat)
    ensures var b := BoxLine(ln, h);
      |b| == (if |ln| > h then |ln| else h) + 4 && b[2..2 + |ln|] == ln
  {
    var b := BoxLine(ln, h);
    var pad := Spaces(if h > |ln| then h - |ln| else 0);
    assert b == "│ " + ln + (pad + " │");
  }

  /** The top border: `┌ `, the language tag, the rest of the rule and `┐`. */
  lemma TopLayout(topLang: string, h: nat)
    requires |topLang| <= h
    ensures var t := "┌ " + topLang + Repeat('─', h)[|topLang|..] + "┐";
      |t| == h + 3 && t[2..2 + |topLang|] == topLang
  {
    var t := "┌ " + topLang + Repeat('─', h)[|topLang|..] + "┐";
    assert t == "┌ " + topLang + (Repeat('─', h)[|topLang|..] + "┐");
  }

  /** The geometry of the box: both borders are `h + 3` wide for the rule width `h`, the top
      one carrying the language tag; every body line holds its line after `│ ` and is `h + 4`
      wide when no line is wider than the rule, which always holds without `codeWrap`. The
      body lines are thus one column wider than the borders. */
  lemma BoxGeometry(content: seq<string>, lang: string, codeWrap: bool, width: Option<int>)
    ensures var b := MakeBox(content, lang, codeWrap, width);
      var h := RuleWidth(content, lang, codeWrap, width);
      && |b.top| == h + 3 && |b.bottom| == h + 3
      && b.top[2..2 + |TopLang(lang)|] == TopLang(lang)
      && |b.body| == |content|
      && (forall i :: 0 <= i < |content| ==>
            |b.body[i]| == (if |content[i]| > h then |content[i]| else h) + 4
            && b.body[i][2..2 + |content[i]|] == content[i])
      && (!codeWrap ==> forall i :: 0 <= i < |content| ==> |b.body[i]| == |b.top| + 1)
  {
    var h := RuleWidth(content, lang, codeWrap, width);
    var b := MakeBox(content, lang, codeWrap, width);
    TopLayout(TopLang(lang), h);
    forall i | 0 <= i < |content|
      ensures |b.body[i]| == (if |content[i]| > h then |content[i]| else h) + 4
      ensures b.body[i][2..2 + |content[i]|] == content[i]
    {
      BoxLineLayout(content[i], h);
    }
  }

  /** The boxed block: the top border, the body lines, the bottom border, then an empty line. */
  function BoxText(b: Box): (r: string)
    requires |b.top| >= 2 && b.top[..2] == "┌ "
    requires b.bottom != [] && b.bottom[|b.bottom| - 1] == '┘'
    ensures |r| >= 4 && r[..2] == "┌ " && r[|r| - 3..] == "┘\n\n"
  {
    var r := b.top + ("\n" + Join(b.body, "\n") + "\n" + b.bottom + "\n\n");
    var front := b.top + "\n" + Join(b.body, "\n") + "\n" + b.bottom[..|b.bottom| - 1];
    assert b.bottom == b.bottom[..|b.bottom| - 1] + "┘";
    assert r == front + "┘\n\n";
    assert r[|front|..] == "┘\n\n";
    assert r[..2] == b.top[..2];
    r
  }

  /** `renderCodeBlock`: the lines of `value`, numbered when the gutter is on, either as they
      are followed by a blank line, or in a box. */
  function RenderCodeBlock(value: Option<string>, lang: Option<string>, o: CodeOptions): (r: string)
    // without a box, the code itself, then an empty line
    ensures !o.codeBox && !o.codeGutter ==> r == (if value.Some? then value.value else "") + "\n\n"
    // without a box but with the gutter, the numbered lines joined by newlines, then an empty line
    ensures !o.codeBox ==>
      r == Join(ContentLines(Split(if value.Some? then value.value else "", '\n'), o.codeGutter), "\n") + "\n\n"
    // with a box, the top border, the body lines, the bottom border, then an empty line
    ensures o.codeBox ==>
      r == BoxText(MakeBox(ContentLines(Split(if value.Some? then value.value else "", '\n'), o.codeGutter),
                           if lang.Some? then lang.value else "", o.codeWrap, o.width))
  {
    var lines := Split(if value.Some? then value.value else "", '\n');
    var content := ContentLines(lines, o.codeGutter);
    if !o.codeBox then Join(content, "\n") + "\n\n"
    else BoxText(MakeBox(content, if lang.Some? then lang.value else "", o.codeWrap, o.width))
  }

  /** `out` are the code's `lines` as the block shows them: unchanged without the gutter, each
      behind its right-aligned number with it. */
  predicate ShownLines(out: seq<string>, lines: seq<string>, gutter: bool) {
    && |out| == |lines|
    && (!gutter ==> out == lines)
    && (gutter ==> forall i :: 0 <= i < |out| ==> NumberedRight(lines[i], i, DigitCount(|lines|), out[i]))
  }

  /** Without a box, the block reads back, line by line, as the code's lines as shown, then an
      empty line. */
  lemma PlainBlockLines(value: Option<string>, lang: Option<string>, o: CodeOptions)
    requires !o.codeBox
    ensures var r := RenderCodeBlock(value, lang, o);
      && |r| >= 2 && r[|r| - 2..] == "\n\n"
      && ShownLines(Split(r[..|r| - 2], '\n'), Split(if value.Some? then value.value else "", '\n'), o.codeGutter)
  {
    var r := RenderCodeBlock(value, lang, o);
    var lines := Split(if value.Some? then value.value else "", '\n');
    var content := ContentLines(lines, o.codeGutter);
    assert r[..|r| - 2] == Join(content, "\n");
    ShownLinesSplit(content, lines, o.codeGutter);
  }

  /** The shown lines, joined by newlines, split back into themselves. */
  lemma ShownLinesSplit(content: seq<string>, lines: seq<string>, gutter: bool)
    requires |lines| >= 1 && forall i :: 0 <= i < |lines| ==> '\n' !in lines[i]
    requires ShownLines(content, lines, gutter)
    ensures Split(Join(content, "\n"), '\n') == content
  {
    forall i | 0 <= i < |content|
      ensures '\n' !in content[i]
    {
      if gutter {
        NumberedNoNewline(lines[i], i, DigitCount(|lines|), content[i]);
      }
    }
    SplitJoin(content, '\n');
  }

  /** A numbered line holds a newline only where its code line does. */
  lemma NumberedNoNewline(line: string, idx: nat, d: nat, s: string)
    requires NumberedRight(line, idx, d, s) && '\n' !in line
    ensures '\n' !in s
  {
    var k := DigitCount(idx + 1);
    forall j | 0 <= j < |s|
      ensures s[j] != '\n'
    {
      if j < d - k {
        assert s[..d - k][j] == s[j];
      } else if j < d {
        assert s[d - k..d][j - (d - k)] == s[j];
      } else if j > d {
        assert s[d + 1..][j - d - 1] == s[j];
      }
    }
  }

  /** Every block ends with an empty line, and a boxed one opens with its top-left corner
      and closes with its bottom-right corner. */
  lemma BlockFrame(value: Option<string>, lang: Option<string>, o: CodeOptions)
    ensures var r := RenderCodeBlock(value, lang, o);
      && |r| >= 2 && r[|r| - 2..] == "\n\n"
      && (o.codeBox ==> r[..2] == "┌ " && r[|r| - 3..] == "┘\n\n")
  {
    var r := RenderCodeBlock(value, lang, o);
    if o.codeBox {
      assert r[|r| - 2..] == r[|r| - 3..][1..];
    } else {
      var content := ContentLines(Split(if value.Some? then value.value else "", '\n'), o.codeGutter);
      assert r == Join(content, "\n") + "\n\n";
    }
  }
}
