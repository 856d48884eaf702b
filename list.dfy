/** List layout of `src/render.js`: `renderListItem` puts a marker before the first line of an
    item's rendered content and indents the lines after it, and `renderList` concatenates the
    items. The content of an item is taken already rendered, as the text its children produce.
    `" ".repeat(n)` throws a `RangeError` when `n` is negative; that outcome is `None`. */
module List {
  import opened Text

  /** One list item: the text its children render to, and its task state (`None` when the item
      is not a task). */
  datatype Item = Item(rendered: string, checked: Option<bool>)

  /** The marker of item `idx`: `start + idx` and a dot for an ordered list, a dash otherwise;
      a task shows its box instead. */
  function Bullet(checked: Option<bool>, ordered: bool, start: int, idx: nat): (r: string)
    // a task's box, checked exactly when the task is done
    ensures checked.Some? ==> |r| == 3 && r[0] == '[' && r[2] == ']' && (r[1] == 'x' <==> checked.value)
    ensures checked.Some? ==> r[1] == 'x' || r[1] == ' '
    // an ordered item's number is written in decimal and, read back, is its place counted
    // from `start`; `Text.DecimalRoundTrip` makes that text unique
    ensures checked.None? && ordered ==>
      |r| >= 2 && r[|r| - 1] == '.' && Decimal(r[..|r| - 1]) && IntValue(r[..|r| - 1]) == start + idx
    ensures checked.None? && !ordered ==> r == "-"
  {
    if checked.Some? then (if checked.value then "[x]" else "[ ]")
    else if ordered then
      var n := IntToString(start + idx);
      IntValueOf(start + idx);
      assert (n + ".")[..|n|] == n;
      n + "."
    else "-"
  }

  /** Leading lines that are blank once trimmed are dropped. */
  function DropBlank(content: seq<string>): (r: seq<string>)
    ensures r == [] || !AllSpace(r[0])
  {
    if content != [] && AllSpace(content[0]) then DropBlank(content[1..]) else content
  }

  /** What remains is a suffix of the content, and every line dropped before it is blank. */
  lemma {:induction false} DropBlankSuffix(content: seq<string>)
    ensures var r := DropBlank(content); |r| <= |content| && r == content[|content| - |r|..]
    ensures var r := DropBlank(content); forall k :: 0 <= k < |content| - |r| ==> AllSpace(content[k])
  {
    if content != [] && AllSpace(content[0]) {
      DropBlankSuffix(content[1..]);
      assert forall k :: 1 <= k < |content| ==> content[k] == content[1..][k - 1];
    }
  }

  /** Dropping blank lines loses no word. */
  lemma {:induction false} DropBlankWords(content: seq<string>)
    ensures AllWords(DropBlank(content)) == AllWords(content)
  {
    if content != [] && AllSpace(content[0]) {
      WordsOfSpace(content[0]);
      DropBlankWords(content[1..]);
    }
  }

  /** The lines of an item: its rendered text without trailing whitespace, split at newlines,
      with the leading blank lines dropped. */
  function Content(rendered: string): (r: seq<string>)
    ensures AllWords(r) == Words(rendered)
    ensures r == [] || !AllSpace(r[0])
    ensures forall k :: 0 <= k < |r| ==> '\n' !in r[k]
  {
    var all := Split(TrimEnd(rendered), '\n');
    var r := DropBlank(all);
    DropBlankSuffix(all);
    assert AllWords(r) == Words(rendered) by {
      DropBlankWords(all);
      WordsOfSplit(TrimEnd(rendered), '\n');
      WordsTrimEnd(rendered);
    }
    assert forall k :: 0 <= k < |r| ==> r[k] == all[|all| - |r| + k];
    r
  }

  /** The content is the lines of the trimmed text from the first one that is not blank on:
      what it leaves out in front is blank, and it starts with a line that is not. */
  lemma ContentSuffix(rendered: string)
    ensures var all := Split(TrimEnd(rendered), '\n');
      var r := Content(rendered);
      && |r| <= |all| && r == all[|all| - |r|..]
      && (forall k :: 0 <= k < |all| - |r| ==> AllSpace(all[k]))
      && (r == [] || !AllSpace(r[0]))
  {
    DropBlankSuffix(Split(TrimEnd(rendered), '\n'));
  }

  /** The content lines with their prefixes: the bullet line first, then each later line
      behind `rest`, each with its own leading whitespace removed. */
  function ItemLines(content: seq<string>, first: string, rest: string): seq<string> {
    seq(|content|, k requires 0 <= k < |content| =>
      (if k == 0 then first else rest) + TrimStart(content[k]))
  }

  /** `lines.map((l) => l + "\n")`. */
  function Terminated(lines: seq<string>): (r: seq<string>)
    ensures |r| == |lines|
    ensures forall k :: 0 <= k < |r| ==> r[k] == lines[k] + "\n"
  {
    if lines == [] then [] else [lines[0] + "\n"] + Terminated(lines[1..])
  }

  /** Ending every line with a newline adds no word. */
  lemma {:induction false} TerminatedWords(lines: seq<string>)
    ensures AllWords(Terminated(lines)) == AllWords(lines)
  {
    if lines != [] {
      var t := Terminated(lines);
      assert Words(t[0]) == [] + Words(lines[0]) by {
        WordsOfSpace("\n");
        WordsAppend(lines[0], "\n");
      }
      assert AllWords(t[1..]) == AllWords(lines[1..]) by {
        assert t[1..] == Terminated(lines[1..]);
        TerminatedWords(lines[1..]);
      }
      ConsWords(t, lines, []);
    }
  }

  /** The content lines with their prefixes and newlines, and an empty line more when the list
      is loose. */
  function ItemBody(content: seq<string>, first: string, rest: string, tight: bool): seq<string> {
    Terminated(ItemLines(content, first, rest) + (if tight then [] else [""]))
  }

  /** The first line's prefix: the indent of the item's level, its bullet and a space. */
  function First(it: Item, indentLevel: nat, ordered: bool, start: int, idx: nat, listIndent: int): string
    requires listIndent * indentLevel >= 0
  {
    Spaces(listIndent * indentLevel) + Bullet(it.checked, ordered, start, idx) + " "
  }

  /** The later lines' prefix: the indent of the item's level and one `listIndent` more; a
      negative `listIndent` has none, as such an item must not have later lines. */
  function Rest(indentLevel: nat, listIndent: int): string
    requires listIndent * indentLevel >= 0
  {
    if listIndent < 0 then "" else Spaces(listIndent * indentLevel) + Spaces(listIndent)
  }

  /** `renderListItem` on the rendered text of the item's children. */
  function ListItem(it: Item, indentLevel: nat, tight: bool, ordered: bool, start: int, idx: nat,
                    listIndent: int): (r: Option<seq<string>>)
    // the indent before the bullet, and the extra indent of later lines, must not be negative
    ensures r.None? <==> listIndent * indentLevel < 0 || (listIndent < 0 && |Content(it.rendered)| >= 2)
  {
    var content := Content(it.rendered);
    if listIndent * indentLevel < 0 || (listIndent < 0 && |content| >= 2) then None
    else
      Some(ItemBody(content, First(it, indentLevel, ordered, start, idx, listIndent),
                    Rest(indentLevel, listIndent), tight))
  }

  /** One line per content line, the first behind `first` and the others behind `rest`, each
      ended by a newline, and a final empty line for a loose list. */
  lemma ItemBodyLayout(content: seq<string>, first: string, rest: string, tight: bool)
    ensures var ls := ItemBody(content, first, rest, tight);
      && |ls| == |content| + (if tight then 0 else 1)
      && (content != [] ==> ls[0] == first + TrimStart(content[0]) + "\n")
      && (forall k :: 0 < k < |content| ==> ls[k] == rest + TrimStart(content[k]) + "\n")
      && (!tight ==> ls[|ls| - 1] == "\n")
  {
    var lines := ItemLines(content, first, rest) + (if tight then [] else [""]);
    assert forall k :: 0 <= k < |content| ==> lines[k] == ItemLines(content, first, rest)[k];
  }

  /** Two runs of spaces make one. */
  lemma SpacesAdd(a: nat, b: nat)
    ensures Spaces(a) + Spaces(b) == Spaces(a + b)
  {
    assert forall k :: 0 <= k < a + b ==> (Spaces(a) + Spaces(b))[k] == ' ';
  }

  lemma NextLevel(listIndent: nat, indentLevel: nat)
    ensures listIndent * indentLevel + listIndent == listIndent * (indentLevel + 1)
  {
  }

  /** The layout: the bullet behind `listIndent * indentLevel` spaces on the first line, the later
      lines behind `listIndent * (indentLevel + 1)` spaces, every line ended by a newline, and
      for a loose list a final empty line. */
  lemma ListItemLayout(it: Item, indentLevel: nat, tight: bool, ordered: bool, start: int, idx: nat,
                       listIndent: int)
    requires ListItem(it, indentLevel, tight, ordered, start, idx, listIndent).Some?
    ensures var ls := ListItem(it, indentLevel, tight, ordered, start, idx, listIndent).value;
      var content := Content(it.rendered);
      && |ls| == |content| + (if tight then 0 else 1)
      && (content != [] ==>
            ls[0] == Spaces(listIndent * indentLevel) + Bullet(it.checked, ordered, start, idx) + " "
                     + TrimStart(content[0]) + "\n")
      && (forall k :: 0 < k < |content| ==>
            ls[k] == Spaces(listIndent * (indentLevel + 1)) + TrimStart(content[k]) + "\n")
      && (!tight ==> ls[|ls| - 1] == "\n")
  {
    var content := Content(it.rendered);
    var first := First(it, indentLevel, ordered, start, idx, listIndent);
    var rest := Rest(indentLevel, listIndent);
    assert ListItem(it, indentLevel, tight, ordered, start, idx, listIndent).value
      == ItemBody(content, first, rest, tight);
    ItemBodyLayout(content, first, rest, tight);
    if |content| >= 2 {
      assert rest == Spaces(listIndent * (indentLevel + 1)) by {
        SpacesAdd(listIndent * indentLevel, listIndent);
        NextLevel(listIndent, indentLevel);
      }
    }
  }

  /** The words of the bullet line: those of the bullet, then the words of the content line. */
  lemma BulletLineWords(indent: string, bullet: string, line: string)
    requires AllSpace(indent)
    ensures Words(indent + bullet + " " + TrimStart(line)) == Words(bullet) + Words(line)
  {
    var clean := TrimStart(line);
    WordsOfSpace(indent);
    WordsAppend(indent, bullet + " " + clean);
    AppendAssoc(indent, bullet + " ", clean);
    AppendAssoc(indent, bullet, " ");
    WordsSpaced(bullet, " ", clean);
    WordsTrimStart(line);
  }

  /** The words of a later line: those of the content line. */
  lemma IndentedLineWords(rest: string, line: string)
    requires AllSpace(rest)
    ensures Words(rest + TrimStart(line)) == Words(line)
  {
    var clean := TrimStart(line);
    WordsOfSpace(rest);
    if rest != [] {
      WordsAppend(rest, clean);
    } else {
      assert rest + clean == clean;
    }
    WordsTrimStart(line);
  }

  /** Lines with the same words, one for one, have the same words together. */
  lemma {:induction false} AllWordsPointwise(a: seq<string>, b: seq<string>)
    requires |a| == |b|
    requires forall k :: 0 <= k < |a| ==> Words(a[k]) == Words(b[k])
    ensures AllWords(a) == AllWords(b)
  {
    if a != [] {
      AllWordsPointwise(a[1..], b[1..]);
    }
  }

  /** Lines laid out as an item's lines have the bullet's words and then the content's. */
  lemma LinesWords(ls: seq<string>, content: seq<string>, indent: string, bullet: string, rest: string)
    requires AllSpace(indent) && AllSpace(rest)
    requires |ls| == |content| >= 1
    requires ls[0] == indent + bullet + " " + TrimStart(content[0])
    requires forall k :: 1 <= k < |content| ==> ls[k] == rest + TrimStart(content[k])
    ensures AllWords(ls) == Words(bullet) + AllWords(content)
  {
    assert Words(ls[0]) == Words(bullet) + Words(content[0]) by {
      BulletLineWords(indent, bullet, content[0]);
    }
    assert AllWords(ls[1..]) == AllWords(content[1..]) by {
      forall k | 0 <= k < |content| - 1 ensures Words(ls[1..][k]) == Words(content[1..][k]) {
        IndentedLineWords(rest, content[k + 1]);
      }
      AllWordsPointwise(ls[1..], content[1..]);
    }
    ConsWords(ls, content, Words(bullet));
  }

  lemma ConsWords(ls: seq<string>, content: seq<string>, w: seq<string>)
    requires |ls| == |content| >= 1
    requires Words(ls[0]) == w + Words(content[0])
    requires AllWords(ls[1..]) == AllWords(content[1..])
    ensures AllWords(ls) == w + AllWords(content)
  {
    AppendAssoc(w, Words(content[0]), AllWords(content[1..]));
  }

  /** The words of an item body: the bullet and the content's words, or none without content. */
  lemma ItemBodyWords(content: seq<string>, indent: string, bullet: string, rest: string, tight: bool)
    requires AllSpace(indent) && AllSpace(rest)
    ensures AllWords(ItemBody(content, indent + bullet + " ", rest, tight))
      == (if content == [] then [] else Words(bullet)) + AllWords(content)
  {
    var ls := ItemLines(content, indent + bullet + " ", rest);
    var tail: seq<string> := if tight then [] else [""];
    TerminatedWords(ls + tail);
    AllWordsAppend(ls, tail);
    assert AllWords(tail) == [] by {
      if !tight {
        WordsOfSpace("");
        assert AllWords(tail) == Words("") + AllWords([]);
      }
    }
    if content != [] {
      LinesWords(ls, content, indent, bullet, rest);
    }
  }

  /** An item shows its bullet's words followed by exactly the words of its rendered content, and
      shows nothing at all when that content is blank. */
  lemma ListItemWords(it: Item, indentLevel: nat, tight: bool, ordered: bool, start: int, idx: nat,
                      listIndent: int)
    requires ListItem(it, indentLevel, tight, ordered, start, idx, listIndent).Some?
    ensures var ls := ListItem(it, indentLevel, tight, ordered, start, idx, listIndent).value;
      AllWords(ls) == (if Words(it.rendered) == [] then [] else Words(Bullet(it.checked, ordered, start, idx)))
        + Words(it.rendered)
  {
    var content := Content(it.rendered);
    var indent := Spaces(listIndent * indentLevel);
    var bullet := Bullet(it.checked, ordered, start, idx);
    var rest := Rest(indentLevel, listIndent);
    SpacesAreSpace(listIndent * indentLevel);
    assert AllSpace(rest) by {
      if listIndent >= 0 {
        SpacesAreSpace(listIndent);
        AllSpaceAppend(indent, Spaces(listIndent));
      }
    }
    ItemBodyWords(content, indent, bullet, rest, tight);
    assert content == [] <==> Words(it.rendered) == [] by {
      if content != [] {
        NotBlankHasWords(content[0]);
        assert AllWords(content) == Words(content[0]) + AllWords(content[1..]);
      }
    }
  }

  /** A line that is not blank holds a word. */
  lemma NotBlankHasWords(s: string)
    requires !AllSpace(s)
    ensures Words(s) != []
  {
    NoWords(s);
  }

  /** One more line of an item, behind the bullet when it is the first. */
  lemma ItemLinesSnoc(content: seq<string>, i: nat, first: string, rest: string)
    requires i < |content|
    ensures ItemLines(content[..i + 1], first, rest)
      == ItemLines(content[..i], first, rest) + [(if i == 0 then first else rest) + TrimStart(content[i])]
  {
  }

  /** `renderListItem`: the blank leading lines shifted off `content`, then one line pushed per
      content line. */
  method RenderListItem(it: Item, indentLevel: nat, tight: bool, ordered: bool, start: int, idx: nat,
                        listIndent: int) returns (r: Option<seq<string>>)
    ensures r == ListItem(it, indentLevel, tight, ordered, start, idx, listIndent)
  {
    var marker := Bullet(None, ordered, start, idx);
    var content := ShiftBlank(Split(TrimEnd(it.rendered), '\n'));
    assert content == Content(it.rendered);
    if listIndent * indentLevel < 0 {
      return None;
    }
    var indent := Spaces(listIndent * indentLevel);
    var box := if it.checked.Some? then Bullet(it.checked, ordered, start, idx) else marker;
    var firstBullet := indent + box + " ";
    var lines := PushLines(content, firstBullet, indent, listIndent);
    if lines.None? {
      return None;
    }
    var out := lines.value;
    if !tight {
      out := out + [""];
    }
    assert out == lines.value + (if tight then [] else [""]);
    r := Some(Terminated(out));
    assert firstBullet == First(it, indentLevel, ordered, start, idx, listIndent);
    PushedItem(it, indentLevel, tight, ordered, start, idx, listIndent, content, lines.value);
  }

  /** The lines `renderListItem` pushes, ended by newlines, are the item. */
  lemma PushedItem(it: Item, indentLevel: nat, tight: bool, ordered: bool, start: int, idx: nat,
                   listIndent: int, content: seq<string>, lines: seq<string>)
    requires content == Content(it.rendered)
    requires listIndent * indentLevel >= 0 && (listIndent >= 0 || |content| < 2)
    requires lines == ItemLines(content, First(it, indentLevel, ordered, start, idx, listIndent),
                                if listIndent < 0 then "" else Spaces(listIndent * indentLevel) + Spaces(listIndent))
    ensures ListItem(it, indentLevel, tight, ordered, start, idx, listIndent)
      == Some(Terminated(lines + (if tight then [] else [""])))
  {
    ListItemIs(it, indentLevel, tight, ordered, start, idx, listIndent);
  }

  /** The `while` loop of `renderListItem` that shifts blank lines off the front of `content`. */
  method ShiftBlank(lines: seq<string>) returns (content: seq<string>)
    ensures content == DropBlank(lines)
  {
    content := lines;
    while |content| > 0 && AllSpace(content[0])
      invariant DropBlank(content) == DropBlank(lines)
      decreases |content|
    {
      content := content[1..];
    }
  }

  /** The `forEach` of `renderListItem`: the first line behind the bullet, each later line
      behind the indent and one `listIndent` more, which must not be negative. */
  method PushLines(content: seq<string>, firstBullet: string, indent: string, listIndent: int)
    returns (r: Option<seq<string>>)
    ensures r.None? <==> listIndent < 0 && |content| >= 2
    ensures r.Some? ==>
      r.value == ItemLines(content, firstBullet, if listIndent < 0 then "" else indent + Spaces(listIndent))
  {
    ghost var rest := if listIndent < 0 then "" else indent + Spaces(listIndent);
    var lines: seq<string> := [];
    var i := 0;
    while i < |content|
      invariant i <= |content|
      invariant i >= 2 ==> listIndent >= 0
      invariant lines == ItemLines(content[..i], firstBullet, rest)
    {
      var clean := TrimStart(content[i]);
      ItemLinesSnoc(content, i, firstBullet, rest);
      if i == 0 {
        lines := lines + [firstBullet + clean];
      } else {
        if listIndent < 0 {
          return None;
        }
        lines := lines + [indent + Spaces(listIndent) + clean];
      }
      i := i + 1;
    }
    assert content[..i] == content;
    r := Some(lines);
  }

  /** An item that renders is its body. */
  lemma ListItemIs(it: Item, indentLevel: nat, tight: bool, ordered: bool, start: int, idx: nat,
                   listIndent: int)
    requires listIndent * indentLevel >= 0 && (listIndent >= 0 || |Content(it.rendered)| < 2)
    ensures ListItem(it, indentLevel, tight, ordered, start, idx, listIndent)
      == Some(ItemBody(Content(it.rendered), First(it, indentLevel, ordered, start, idx, listIndent),
                       Rest(indentLevel, listIndent), tight))
  {
  }

  /** `renderList`: the items' lines one after another, the `idx`-th item numbered
      `start + idx`; the list is tight when it is not spread. */
  function RenderList(items: seq<Item>, ordered: bool, start: Option<int>, spread: Option<bool>,
                      indentLevel: nat, listIndent: int): (r: Option<seq<string>>)
    // it fails exactly when one of its items does
    ensures r.Some? <==> forall k :: 0 <= k < |items| ==>
      ListItem(items[k], indentLevel, spread == Some(false), ordered,
               if start.Some? then start.value else 1, k, listIndent).Some?
    // a loose list ends every item with an empty line
    ensures r.Some? && spread != Some(false) ==> |r.value| >= |items|
    // the lines of item 0, then those of item 1, and so on, item `k` numbered `start + k`
    ensures r.Some? ==>
      r.value == Flatten(ItemsRendered(items, spread == Some(false), ordered,
                                       if start.Some? then start.value else 1, indentLevel, listIndent))
  {
    ListFrom(items, 0, spread == Some(false), ordered, if start.Some? then start.value else 1,
             indentLevel, listIndent)
  }

  /** The lines of the items from the `k`-th on. */
  function ListFrom(items: seq<Item>, k: nat, tight: bool, ordered: bool, start: int, indentLevel: nat,
                    listIndent: int): (r: Option<seq<string>>)
    requires k <= |items|
    ensures r.Some? <==> forall j :: k <= j < |items| ==>
      ListItem(items[j], indentLevel, tight, ordered, start, j, listIndent).Some?
    ensures r.Some? && !tight ==> |r.value| >= |items| - k
    ensures r.Some? ==> r.value == Flatten(ItemsRendered(items, tight, ordered, start, indentLevel, listIndent)[k..])
    decreases |items| - k
  {
    if k == |items| then Some([])
    else
      var head := ListItem(items[k], indentLevel, tight, ordered, start, k, listIndent);
      var tail := ListFrom(items, k + 1, tight, ordered, start, indentLevel, listIndent);
      ghost var all := ItemsRendered(items, tight, ordered, start, indentLevel, listIndent);
      assert all[k..][1..] == all[k + 1..];
      if head.None? || tail.None? then None else Some(head.value + tail.value)
  }

  /** The lines of each item in turn, item `k` as `renderListItem` renders it at index `k`
      (no lines for an item that fails). */
  function ItemsRendered(items: seq<Item>, tight: bool, ordered: bool, start: int, indentLevel: nat,
                         listIndent: int): (r: seq<seq<string>>)
    ensures |r| == |items|
    ensures forall k :: 0 <= k < |items| ==>
      var li := ListItem(items[k], indentLevel, tight, ordered, start, k, listIndent);
      li.Some? ==> r[k] == li.value
  {
    seq(|items|, k requires 0 <= k < |items| =>
      var li := ListItem(items[k], indentLevel, tight, ordered, start, k, listIndent);
      if li.Some? then li.value else [])
  }

  /** `flatMap`'s flattening: the lists one after another. */
  function Flatten(xs: seq<seq<string>>): seq<string> {
    if xs == [] then [] else xs[0] + Flatten(xs[1..])
  }
}
