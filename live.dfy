/** The live redraw of `src/live.ts`: every `render` redraws the whole frame in place. It moves
    the cursor up over the previous frame (CUU, ECMA-48 section 8.3.22), returns to the first
    column, and erases and rewrites each line (EL, ECMA-48 section 8.3.41), bracketed by the
    begin and end markers of synchronized output (DEC private mode 2026). The frame itself comes
    from the caller's `renderFrame`, so `Render` takes the rendered text; the chunks handed to
    `write` are kept, in order, in `written`. */
module Live {
  import opened Text

  const ESC: char := '\U{1B}'

  /** Begin synchronized update. */
  const BSU: string := "\U{1B}[?2026h"
  /** End synchronized update. */
  const ESU: string := "\U{1B}[?2026l"
  const HideCursor: string := "\U{1B}[?25l"
  const ShowCursor: string := "\U{1B}[?25h"
  /** Erase the whole line. */
  const ClearLine: string := "\U{1B}[2K"

  /** `cursorUp(lines)`: nothing for no line, otherwise CUU with the count as its parameter. */
  function CursorUp(lines: int): (r: string)
    ensures lines <= 0 <==> r == []
    ensures lines > 0 ==>
      && |r| >= 4 && r[..2] == [ESC, '['] && r[|r| - 1] == 'A'
      && (forall i :: 2 <= i < |r| - 1 ==> '0' <= r[i] <= '9')
      && DigitsValue(r[2..|r| - 1]) == lines
  {
    if lines <= 0 then []
    else
      var digits := NatToString(lines);
      var r := [ESC, '['] + digits + "A";
      assert r[2..|r| - 1] == digits;
      DigitsValueOf(lines);
      r
  }

  /** The text ends in a newline. */
  predicate EndsInNewline(s: string) {
    s != [] && s[|s| - 1] == '\n'
  }

  /** The lines of a rendered frame: a final newline added when missing, then split at the
      newlines, and a last empty string dropped. */
  function FrameLines(raw: string): (ls: seq<string>)
    // one line per newline, a missing final newline counted once
    ensures |ls| == Count('\n', raw) + (if EndsInNewline(raw) then 0 else 1)
    ensures forall k :: 0 <= k < |ls| ==> '\n' !in ls[k]
    // the lines, each followed by a newline, are the frame with its final newline
    ensures Join(ls, "\n") + "\n" == (if EndsInNewline(raw) then raw else raw + "\n")
  {
    var rendered := if EndsInNewline(raw) then raw else raw + "\n";
    assert Count('\n', rendered) == Count('\n', raw) + (if EndsInNewline(raw) then 0 else 1) by {
      CountAppend('\n', raw, "\n");
    }
    TerminatedLines(rendered, '\n');
    PopEmpty(Split(rendered, '\n'))
  }

  /** `if (lines.length > 0 && lines.at(-1) === "") lines.pop()`. */
  function PopEmpty(lines: seq<string>): seq<string> {
    if |lines| > 0 && lines[|lines| - 1] == "" then lines[..|lines| - 1] else lines
  }

  /** Split at the separators of a text that ends in one, and without the empty string after
      the last of them, a text has one line per separator, and the lines, each followed by the
      separator, give the text back. */
  lemma TerminatedLines(s: string, c: char)
    requires s != [] && s[|s| - 1] == c
    ensures var ls := PopEmpty(Split(s, c));
      && |ls| == Count(c, s)
      && (forall k :: 0 <= k < |ls| ==> c !in ls[k])
      && Join(ls, [c]) + [c] == s
  {
    var r := Split(s, c);
    var last := r[|r| - 1];
    JoinEndsWithLast(r, [c]);
    LastOfSuffix(s, last);
    assert c !in last;
    assert last == [];
    var ls := r[..|r| - 1];
    SnocLast(r);
    JoinSnocEmpty(ls, c);
    assert PopEmpty(r) == ls;
  }

  lemma SnocLast<T>(r: seq<T>)
    requires r != []
    ensures r[..|r| - 1] + [r[|r| - 1]] == r
  {
  }

  /** The last part is the end of the joined text. */
  lemma {:induction false} JoinEndsWithLast(parts: seq<string>, sep: string)
    requires parts != []
    ensures var j := Join(parts, sep);
      |parts[|parts| - 1]| <= |j| && j[|j| - |parts[|parts| - 1]|..] == parts[|parts| - 1]
  {
    if |parts| > 1 {
      JoinEndsWithLast(parts[1..], sep);
      var rest := Join(parts[1..], sep);
      assert Join(parts, sep) == (parts[0] + sep) + rest;
    }
  }

  lemma LastOfSuffix(s: string, t: string)
    requires |t| <= |s| && s[|s| - |t|..] == t
    ensures t == [] || t[|t| - 1] == s[|s| - 1]
  {
    if t != [] {
      assert t[|t| - 1] == s[|s| - |t|..][|t| - 1];
    }
  }

  /** Joining with an empty last part ends the text with the separator; with no other part, the
      text is empty. */
  lemma {:induction false} JoinSnocEmpty(ls: seq<string>, c: char)
    ensures ls == [] ==> Join(ls + [""], [c]) == []
    ensures ls != [] ==> Join(ls + [""], [c]) == Join(ls, [c]) + [c]
  {
    if |ls| == 1 {
      assert ls + [""] == [ls[0], ""];
      assert Join([""], [c]) == "";
    } else if |ls| > 1 {
      assert (ls + [""])[1..] == ls[1..] + [""];
      JoinSnocEmpty(ls[1..], c);
    }
  }

  /** Back to the top of the previous frame: up over its lines, then to the first column. */
  function Home(previousLines: nat): string {
    if previousLines > 0 then CursorUp(previousLines) + "\r" else "\r"
  }

  /** Line `i` of a frame: erased, then the new line's text, or nothing past its end. */
  function Row(lines: seq<string>, i: nat): string {
    ClearLine + (if i < |lines| then lines[i] else []) + "\n"
  }

  /** The first `n` rows of a frame. */
  function Rows(lines: seq<string>, n: nat): string {
    if n == 0 then [] else Rows(lines, n - 1) + Row(lines, n - 1)
  }

  function Max(a: nat, b: nat): nat {
    if a >= b then a else b
  }

  /** The frame `render` writes: the cursor hidden first if asked, synchronized output begun,
      the cursor home, one row per line of the taller of the old and new frames, and
      synchronized output ended. */
  function Frame(previousLines: nat, hiding: bool, sync: bool, lines: seq<string>): string {
    (if hiding then HideCursor else []) + (if sync then BSU else []) + Home(previousLines)
    + Rows(lines, Max(previousLines, |lines|)) + (if sync then ESU else [])
  }

  lemma {:induction false} RowsNewlines(lines: seq<string>, n: nat)
    requires forall k :: 0 <= k < |lines| ==> '\n' !in lines[k]
    ensures Count('\n', Rows(lines, n)) == n
  {
    if n > 0 {
      RowsNewlines(lines, n - 1);
      var text := if n - 1 < |lines| then lines[n - 1] else [];
      CountAbsent('\n', ClearLine);
      CountAbsent('\n', text);
      CountAppend('\n', ClearLine, text);
      CountAppend('\n', ClearLine + text, "\n");
      CountAppend('\n', Rows(lines, n - 1), Row(lines, n - 1));
    }
  }

  /** The frame holds exactly one newline per row of the taller of the old and the new frame,
      so a frame that shrinks also blanks the stale lines below it. */
  lemma FrameNewlines(previousLines: nat, hiding: bool, sync: bool, lines: seq<string>)
    requires forall k :: 0 <= k < |lines| ==> '\n' !in lines[k]
    ensures Count('\n', Frame(previousLines, hiding, sync, lines)) == Max(previousLines, |lines|)
  {
    var a := if hiding then HideCursor else [];
    var b := if sync then BSU else [];
    var h := Home(previousLines);
    var e := if sync then ESU else [];
    assert Count('\n', a) == 0 && Count('\n', b) == 0 && Count('\n', e) == 0 by {
      CountAbsent('\n', a);
      CountAbsent('\n', b);
      CountAbsent('\n', e);
    }
    assert Count('\n', h) == 0 by {
      HomeNoNewline(previousLines);
      CountAbsent('\n', h);
    }
    RowsNewlines(lines, Max(previousLines, |lines|));
    CountAround(a, b, h, Rows(lines, Max(previousLines, |lines|)), e);
  }

  lemma HomeNoNewline(previousLines: nat)
    ensures '\n' !in Home(previousLines)
  {
    if previousLines > 0 {
      var up := CursorUp(previousLines);
      forall i | 0 <= i < |up|
        ensures up[i] != '\n'
      {
        if i < 2 {
          assert up[i] == up[..2][i];
        }
      }
      assert Home(previousLines) == up + "\r";
    }
  }

  /** Pieces without a newline add none. */
  lemma CountAround(a: string, b: string, h: string, rows: string, e: string)
    requires Count('\n', a) == 0 && Count('\n', b) == 0 && Count('\n', h) == 0 && Count('\n', e) == 0
    ensures Count('\n', a + b + h + rows + e) == Count('\n', rows)
  {
    CountAppend('\n', a, b);
    CountAppend('\n', a + b, h);
    CountAppend('\n', a + b + h, rows);
    CountAppend('\n', a + b + h + rows, e);
  }

  predicate EndsWith(s: string, p: string) {
    |p| <= |s| && s[|s| - |p|..] == p
  }

  lemma PrefixStarts(p: string, rest: string)
    ensures StartsWith(p + rest, p)
  {
    assert (p + rest)[..|p|] == p;
  }

  lemma SuffixEnds(rest: string, p: string)
    ensures EndsWith(rest + p, p)
  {
    assert (rest + p)[|rest|..] == p;
  }

  /** The five pieces of a frame, regrouped from the right. */
  lemma Regroup(a: string, b: string, h: string, rows: string, e: string)
    ensures a + b + h + rows + e == a + (b + (h + (rows + e)))
    ensures a + b + h + rows + e == (a + b + h + rows) + e
  {
    AppendAssoc(h, rows, e);
    AppendAssoc(b, h, rows + e);
    AppendAssoc(a, b, h + (rows + e));
    AppendAssoc(a + b, h, rows + e);
    AppendAssoc(a + b + h, rows, e);
  }

  /** Going home begins with CUU's digits or with the carriage return, never with the sequence
      that hides the cursor. */
  lemma HomeNotHide(previousLines: nat, rest: string)
    ensures !StartsWith(Home(previousLines) + rest, HideCursor)
  {
    var s := Home(previousLines) + rest;
    if previousLines > 0 {
      var up := CursorUp(previousLines);
      assert s[2] == up[2];
      assert s[2] != HideCursor[2];
    } else {
      assert s[0] != HideCursor[0];
    }
  }

  /** Beginning synchronized output is not hiding the cursor. */
  lemma BsuNotHide(rest: string)
    ensures !StartsWith(BSU + rest, HideCursor)
  {
    assert (BSU + rest)[4] != HideCursor[4];
  }

  /** A frame begins by hiding the cursor exactly when asked to. */
  lemma FrameHides(previousLines: nat, hiding: bool, sync: bool, lines: seq<string>)
    ensures StartsWith(Frame(previousLines, hiding, sync, lines), HideCursor) <==> hiding
  {
    var a := if hiding then HideCursor else [];
    var b := if sync then BSU else [];
    var h := Home(previousLines);
    var rows := Rows(lines, Max(previousLines, |lines|));
    var e := if sync then ESU else [];
    Regroup(a, b, h, rows, e);
    var tail := b + (h + (rows + e));
    if hiding {
      PrefixStarts(HideCursor, tail);
    } else if sync {
      assert a + tail == BSU + (h + (rows + e));
      BsuNotHide(h + (rows + e));
    } else {
      assert a + tail == h + (rows + e);
      HomeNotHide(previousLines, rows + e);
    }
  }

  /** The rows end with a newline, and going home with a carriage return. */
  lemma RowsEnd(lines: seq<string>, n: nat, previousLines: nat)
    ensures var r := Rows(lines, n); n > 0 ==> r != [] && r[|r| - 1] == '\n'
    ensures var h := Home(previousLines); h != [] && h[|h| - 1] == '\r'
  {
    if n > 0 {
      var r := Rows(lines, n - 1) + Row(lines, n - 1);
      assert r[|r| - 1] == Row(lines, n - 1)[|Row(lines, n - 1)| - 1];
    }
  }

  /** A frame is bracketed by the markers of synchronized output exactly when that is on;
      otherwise it ends with the newline of its last row, or with the carriage return when it
      has no row. */
  lemma FrameSynchronized(previousLines: nat, hiding: bool, sync: bool, lines: seq<string>)
    ensures var f := Frame(previousLines, hiding, sync, lines);
      var a := if hiding then HideCursor else [];
      && |a| <= |f|
      && (sync ==> StartsWith(f[|a|..], BSU) && EndsWith(f, ESU))
      && (!sync ==> f != [] && (f[|f| - 1] == '\n' || f[|f| - 1] == '\r') && !EndsWith(f, ESU))
  {
    var a := if hiding then HideCursor else [];
    var h := Home(previousLines);
    var rows := Rows(lines, Max(previousLines, |lines|));
    RowsEnd(lines, Max(previousLines, |lines|), previousLines);
    if sync {
      Bracketed(a, BSU, h, rows, ESU);
    } else {
      EndsPlain(a, [], h, rows, []);
    }
  }

  lemma Bracketed(a: string, b: string, h: string, rows: string, e: string)
    ensures var f := a + b + h + rows + e;
      |a| <= |f| && StartsWith(f[|a|..], b) && EndsWith(f, e)
  {
    Regroup(a, b, h, rows, e);
    var f := a + b + h + rows + e;
    assert f[|a|..] == b + (h + (rows + e));
    PrefixStarts(b, h + (rows + e));
    SuffixEnds(a + b + h + rows, e);
  }

  lemma EndsPlain(a: string, b: string, h: string, rows: string, e: string)
    requires b == [] && e == []
    requires h != [] && h[|h| - 1] == '\r'
    requires rows == [] || rows[|rows| - 1] == '\n'
    ensures var f := a + b + h + rows + e;
      f != [] && (f[|f| - 1] == '\n' || f[|f| - 1] == '\r') && !EndsWith(f, ESU)
  {
    var f := a + b + h + rows + e;
    assert f == a + h + rows;
    assert f[|f| - 1] == (h + rows)[|h + rows| - 1];
    EndsWithLast(f, ESU);
  }

  lemma EndsWithLast(s: string, p: string)
    ensures EndsWith(s, p) && p != [] ==> s[|s| - 1] == p[|p| - 1]
  {
    if EndsWith(s, p) && p != [] {
      assert s[|s| - 1] == s[|s| - |p|..][|p| - 1];
    }
  }

  lemma AppendRow(head: string, rows: string, clear: string, text: string)
    ensures head + rows + clear + text + "\n" == head + (rows + (clear + text + "\n"))
  {
    AppendAssoc(head, rows, clear + text + "\n");
    AppendAssoc(head + rows, clear, text);
    AppendAssoc(head + rows, clear + text, "\n");
  }

  /** The frame `render` builds up piece by piece, one row per turn of its loop. */
  method BuildFrame(previousLines: nat, hiding: bool, sync: bool, lines: seq<string>) returns (frame: string)
    ensures frame == Frame(previousLines, hiding, sync, lines)
  {
    var maxLines := if previousLines >= |lines| then previousLines else |lines|;
    ghost var a := if hiding then HideCursor else [];
    ghost var b := if sync then BSU else [];
    ghost var e := if sync then ESU else [];
    frame := "";
    if hiding {
      frame := frame + HideCursor;
    }
    assert frame == a;
    if sync {
      frame := frame + BSU;
    }
    assert frame == a + b;
    frame := frame + (if previousLines > 0 then CursorUp(previousLines) + "\r" else "\r");
    ghost var head := frame;
    assert head == a + b + Home(previousLines);
    for i := 0 to maxLines
      invariant frame == head + Rows(lines, i)
    {
      frame := frame + ClearLine;
      frame := frame + (if i < |lines| then lines[i] else "");
      frame := frame + "\n";
      AppendRow(head, Rows(lines, i), ClearLine, if i < |lines| then lines[i] else "");
    }
    assert maxLines == Max(previousLines, |lines|);
    ghost var rows := Rows(lines, maxLines);
    if sync {
      frame := frame + ESU;
    }
    assert frame == head + rows + e;
  }

  /** The renderer's state between calls: the number of lines of the last frame, and whether
      the cursor is hidden; the two switches are fixed at creation. */
  class LiveRenderer {
    var previousLines: nat
    var cursorHidden: bool
    const synchronizedOutput: bool
    const hideCursor: bool
    /** The chunks passed to `write`, oldest first. */
    var written: seq<string>

    /** The cursor is hidden only by a renderer that hides it. */
    ghost predicate Valid()
      reads this
    {
      cursorHidden ==> hideCursor
    }

    /** `createLiveRenderer`: both switches are on unless explicitly `false`. */
    constructor (synchronizedOutputOption: Option<bool>, hideCursorOption: Option<bool>)
      ensures Valid()
      ensures synchronizedOutput == (synchronizedOutputOption != Some(false))
      ensures hideCursor == (hideCursorOption != Some(false))
      ensures previousLines == 0 && !cursorHidden && written == []
    {
      previousLines := 0;
      cursorHidden := false;
      synchronizedOutput := synchronizedOutputOption != Some(false);
      hideCursor := hideCursorOption != Some(false);
      written := [];
    }

    /** `render`, given what `renderFrame` made of the input: exactly one chunk is written,
        the frame, and the frame's line count is remembered for the next redraw. */
    method Render(raw: string)
      requires Valid()
      modifies this
      ensures Valid()
      ensures written == old(written)
        + [Frame(old(previousLines), hideCursor && !old(cursorHidden), synchronizedOutput, FrameLines(raw))]
      ensures previousLines == Count('\n', raw) + (if EndsInNewline(raw) then 0 else 1)
      ensures cursorHidden == hideCursor
    {
      var lines := FrameLines(raw);
      var newLines := |lines|;
      var hiding := hideCursor && !cursorHidden;
      if hiding {
        cursorHidden := true;
      }
      var frame := BuildFrame(previousLines, hiding, synchronizedOutput, lines);
      written := written + [frame];
      previousLines := newLines;
      assert previousLines == Count('\n', raw) + (if EndsInNewline(raw) then 0 else 1);
    }

    /** `finish`: shows the cursor again when this renderer hid it, and then forgets that it
        did, so a second `finish` writes nothing. */
    method Finish()
      requires Valid()
      modifies this
      ensures Valid()
      ensures written == old(written) + (if old(cursorHidden) then [ShowCursor] else [])
      ensures !cursorHidden
      ensures previousLines == old(previousLines)
    {
      if hideCursor && cursorHidden {
        written := written + [ShowCursor];
        cursorHidden := false;
      }
    }
  }
}
