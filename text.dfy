/** Character classes and string helpers shared by the wrapper, the renderer and the CLI.
    Text is a sequence of characters; the visible width of a string is its length, which is
    what `visibleWidth` measures on an escape-free alphabet of single-column characters. */
module Text {

  datatype Option<T> = None | Some(value: T)

  /** The characters JavaScript's `\s` matches (WhiteSpace and LineTerminator); `trim`,
      `trimEnd` and `trimStart` remove exactly this set as well. */
  predicate IsSpace(c: char) {
    c == '\t' || c == '\n' || c == '\U{000B}' || c == '\U{000C}' || c == '\r' || c == ' '
    || c == '\U{00A0}' || c == '\U{1680}' || ('\U{2000}' <= c <= '\U{200A}')
    || c == '\U{2028}' || c == '\U{2029}' || c == '\U{202F}' || c == '\U{205F}'
    || c == '\U{3000}' || c == '\U{FEFF}'
  }

  /** JavaScript's `\w`: the characters that take part in a `\b` word boundary. */
  predicate IsWordChar(c: char) {
    ('a' <= c <= 'z') || ('A' <= c <= 'Z') || ('0' <= c <= '9') || c == '_'
  }

  predicate AllSpace(s: string) {
    forall i :: 0 <= i < |s| ==> IsSpace(s[i])
  }

  predicate NoSpace(s: string) {
    forall i :: 0 <= i < |s| ==> !IsSpace(s[i])
  }

  /** Visible width of a string: one column per character. */
  function Width(s: string): nat {
    |s|
  }

  /** ASCII lower-casing, the only folding a case-insensitive regular expression without the
      `u` flag applies to the ASCII words used here. */
  function Lower(c: char): char {
    if 'A' <= c <= 'Z' then (c as int + 32) as char else c
  }

  function LowerAll(s: string): (r: string)
    ensures |r| == |s|
    ensures forall i :: 0 <= i < |s| ==> r[i] == Lower(s[i])
  {
    seq(|s|, i requires 0 <= i < |s| => Lower(s[i]))
  }

  function Repeat(c: char, n: nat): (r: string)
    ensures |r| == n
    ensures forall i :: 0 <= i < n ==> r[i] == c
  {
    seq(n, _ => c)
  }

  function Spaces(n: nat): string {
    Repeat(' ', n)
  }

  lemma SpacesAreSpace(n: nat)
    ensures AllSpace(Spaces(n)) && Blank(Spaces(n)) && |Spaces(n)| == n
  {
  }

  /** Only U+0020 spaces: what `" ".repeat(n)` and `padStart` write. */
  predicate Blank(s: string) {
    forall i :: 0 <= i < |s| ==> s[i] == ' '
  }

  lemma BlankIsSpace(s: string)
    requires Blank(s)
    ensures AllSpace(s)
  {
  }

  /** Start of the whitespace run that ends at `i`. */
  function SpaceRunStart(s: string, i: nat): (k: nat)
    requires i <= |s|
    ensures k <= i
    ensures forall j :: k <= j < i ==> IsSpace(s[j])
    ensures k == 0 || !IsSpace(s[k - 1])
  {
    if i > 0 && IsSpace(s[i - 1]) then SpaceRunStart(s, i - 1) else i
  }

  /** End of the whitespace run that starts at `i`. */
  function SpaceRunEnd(s: string, i: nat): (k: nat)
    requires i <= |s|
    ensures i <= k <= |s|
    ensures forall j :: i <= j < k ==> IsSpace(s[j])
    ensures k == |s| || !IsSpace(s[k])
    decreases |s| - i
  {
    if i < |s| && IsSpace(s[i]) then SpaceRunEnd(s, i + 1) else i
  }

  /** `s.replace(/\s+$/, "")` and `s.trimEnd()`. */
  function TrimEnd(s: string): (r: string)
    ensures |r| <= |s| && s[..|r|] == r
    ensures AllSpace(s[|r|..])
    ensures r == [] || !IsSpace(r[|r| - 1])
  {
    var k := SpaceRunStart(s, |s|);
    assert forall j :: 0 <= j < |s| - k ==> s[k..][j] == s[k + j];
    s[..k]
  }

  /** `s.replace(/^\s+/, "")` and `s.trimStart()`. */
  function TrimStart(s: string): (r: string)
    ensures |r| <= |s| && s[|s| - |r|..] == r
    ensures AllSpace(s[..|s| - |r|])
    ensures r == [] || !IsSpace(r[0])
  {
    var k := SpaceRunEnd(s, 0);
    assert forall j :: 0 <= j < k ==> s[..k][j] == s[j];
    s[k..]
  }

  /** Any decomposition into a kept part without trailing whitespace and a whitespace tail is
      the one TrimEnd finds. */
  lemma {:induction false} TrimEndUnique(a: string, w: string)
    requires a == [] || !IsSpace(a[|a| - 1])
    requires AllSpace(w)
    ensures TrimEnd(a + w) == a
  {
    if w != [] {
      assert (a + w)[..|a + w| - 1] == a + w[..|w| - 1];
      TrimEndUnique(a, w[..|w| - 1]);
    } else {
      assert a + w == a;
    }
  }

  lemma TrimEndAppendSpace(s: string, w: string)
    requires AllSpace(w)
    ensures TrimEnd(s + w) == TrimEnd(s)
  {
    var r := TrimEnd(s);
    var tail := s[|r|..];
    AllSpaceAppend(tail, w);
    TakeDrop(s, |r|);
    AppendAssoc(r, tail, w);
    TrimEndUnique(r, tail + w);
  }

  /** Trailing whitespace is all that is trimmed, so a part that ends in a word survives. */
  lemma TrimEndAppend(a: string, b: string)
    ensures TrimEnd(b) != [] ==> TrimEnd(a + b) == a + TrimEnd(b)
    ensures TrimEnd(b) == [] ==> TrimEnd(a + b) == TrimEnd(a)
  {
    var t := TrimEnd(b);
    TakeDrop(b, |t|);
    if t != [] {
      assert a + b == (a + t) + b[|t|..];
      TrimEndUnique(a + t, b[|t|..]);
    } else {
      assert AllSpace(b);
      TrimEndAppendSpace(a, b);
    }
  }

  lemma AllSpaceAppend(a: string, b: string)
    requires AllSpace(a) && AllSpace(b)
    ensures AllSpace(a + b)
  {
    forall i | 0 <= i < |a + b| ensures IsSpace((a + b)[i]) {
      if i >= |a| {
        assert (a + b)[i] == b[i - |a|];
      }
    }
  }

  lemma TakeDrop<T>(s: seq<T>, n: nat)
    requires n <= |s|
    ensures s[..n] + s[n..] == s
  {
  }

  lemma TrimEndIdle(s: string)
    requires s == [] || !IsSpace(s[|s| - 1])
    ensures TrimEnd(s) == s
  {
  }

  lemma TrimStartIdle(s: string)
    requires s == [] || !IsSpace(s[0])
    ensures TrimStart(s) == s
  {
  }

  /** Number of occurrences of `c` in `s`. */
  function Count(c: char, s: string): nat {
    if s == [] then 0 else (if s[0] == c then 1 else 0) + Count(c, s[1..])
  }

  lemma {:induction false} CountAppend(c: char, a: string, b: string)
    ensures Count(c, a + b) == Count(c, a) + Count(c, b)
  {
    if a == [] {
      assert a + b == b;
    } else {
      assert (a + b)[1..] == a[1..] + b;
      CountAppend(c, a[1..], b);
    }
  }

  lemma {:induction false} CountAbsent(c: char, s: string)
    requires c !in s
    ensures Count(c, s) == 0
  {
    if s != [] {
      CountAbsent(c, s[1..]);
    }
  }

  /** Flattening of a list of strings (`parts.join("")`). */
  function Concat(parts: seq<string>): string {
    if parts == [] then [] else parts[0] + Concat(parts[1..])
  }

  lemma {:induction false} ConcatAppend(a: seq<string>, b: seq<string>)
    ensures Concat(a + b) == Concat(a) + Concat(b)
  {
    if a == [] {
      assert a + b == b;
    } else {
      assert (a + b)[1..] == a[1..] + b;
      ConcatAppend(a[1..], b);
    }
  }

  lemma AppendAssoc<T>(a: seq<T>, b: seq<T>, c: seq<T>)
    ensures a + (b + c) == a + b + c
  {
  }

  lemma AppendSnoc<T>(a: seq<T>, b: seq<T>, x: T)
    ensures a + (b + [x]) == a + b + [x]
  {
  }

  lemma ConcatPrefixStep(parts: seq<string>, i: nat)
    requires i < |parts|
    ensures Concat(parts[..i + 1]) == Concat(parts[..i]) + parts[i]
  {
    assert parts[..i + 1] == parts[..i] + [parts[i]];
    ConcatSnoc(parts[..i], parts[i]);
  }

  lemma ConcatSnoc(a: seq<string>, s: string)
    ensures Concat(a + [s]) == Concat(a) + s
  {
    ConcatAppend(a, [s]);
    assert Concat([s]) == s + Concat([]);
  }

  /** `parts.join(sep)`. */
  function Join(parts: seq<string>, sep: string): string {
    if parts == [] then []
    else if |parts| == 1 then parts[0]
    else parts[0] + sep + Join(parts[1..], sep)
  }

  /** `s.startsWith(p)`. */
  predicate StartsWith(s: string, p: string) {
    |p| <= |s| && s[..|p|] == p
  }

  /** The index of the first `c` in `s`: `s.indexOf(c)`, or -1. */
  function IndexOf(s: string, c: char): (k: int)
    ensures -1 <= k < |s|
    ensures k == -1 <==> c !in s
    ensures k >= 0 ==> s[k] == c && c !in s[..k]
  {
    if s == [] then -1
    else if s[0] == c then 0
    else
      var k := IndexOf(s[1..], c);
      if k == -1 then -1 else k + 1
  }

  /** `s.split(c)` for a one-character separator. */
  function Split(s: string, c: char): (r: seq<string>)
    ensures |r| >= 1
    ensures forall i :: 0 <= i < |r| ==> c !in r[i]
    ensures Join(r, [c]) == s
    ensures |r| == Count(c, s) + 1
    decreases |s|
  {
    var k := IndexOf(s, c);
    if k == -1 then
      CountAbsent(c, s);
      [s]
    else
      var rest := Split(s[k + 1..], c);
      SplitCons(s, c, k, rest);
      [s[..k]] + rest
  }

  /** The piece before the first separator, followed by the pieces of the rest. */
  lemma SplitCons(s: string, c: char, k: nat, rest: seq<string>)
    requires k < |s| && s[k] == c && c !in s[..k]
    requires |rest| >= 1 && forall i :: 0 <= i < |rest| ==> c !in rest[i]
    requires Join(rest, [c]) == s[k + 1..] && |rest| == Count(c, s[k + 1..]) + 1
    ensures var r := [s[..k]] + rest;
      && (forall i :: 0 <= i < |r| ==> c !in r[i])
      && Join(r, [c]) == s && |r| == Count(c, s) + 1
  {
    var r := [s[..k]] + rest;
    assert r[1..] == rest;
    assert s == s[..k] + [c] + s[k + 1..];
    assert Count(c, s) == Count(c, s[k + 1..]) + 1 by {
      CountAppend(c, s[..k] + [c], s[k + 1..]);
      CountAppend(c, s[..k], [c]);
      CountAbsent(c, s[..k]);
      assert Count(c, [c]) == 1 + Count(c, []);
    }
  }

  /** A join begins with its first part, followed by the separator when more parts follow. */
  lemma JoinHead(parts: seq<string>, c: char)
    requires |parts| >= 1
    ensures StartsWith(Join(parts, [c]), parts[0])
    ensures |parts| == 1 ==> Join(parts, [c]) == parts[0]
    ensures |parts| > 1 ==> |Join(parts, [c])| > |parts[0]| && Join(parts, [c])[|parts[0]|] == c
  {
    if |parts| > 1 {
      var j := Join(parts, [c]);
      assert j == parts[0] + ([c] + Join(parts[1..], [c]));
    }
  }

  /** `s.split(c)[1]` exists exactly when `c` occurs in `s`, and is the text after the first `c`
      up to the next one or the end. */
  lemma SplitSecond(s: string, c: char)
    ensures |Split(s, c)| >= 2 <==> c in s
    ensures c in s ==>
      var k := IndexOf(s, c);
      var t := Split(s, c)[1];
      && c !in t && StartsWith(s[k + 1..], t)
      && (k + 1 + |t| == |s| || s[k + 1 + |t|] == c)
  {
    var k := IndexOf(s, c);
    if k != -1 {
      var rest := Split(s[k + 1..], c);
      assert Split(s, c) == [s[..k]] + rest;
      var t := rest[0];
      assert StartsWith(s[k + 1..], t) && (k + 1 + |t| == |s| || s[k + 1..][|t|] == c) by {
        JoinHead(rest, c);
      }
      assert k + 1 + |t| < |s| ==> s[k + 1..][|t|] == s[k + 1 + |t|];
    } else {
      assert Split(s, c) == [s];
    }
  }

  /** A prefix of `s` that ends at its end or at a `c` is all of `s` when `s` holds no `c`. */
  lemma UpToSeparator(s: string, t: string, c: char)
    requires c !in s && StartsWith(s, t) && (|t| == |s| || (|t| < |s| && s[|t|] == c))
    ensures t == s
  {
  }

  /** Text without the separator is one piece. */
  lemma SplitNone(s: string, c: char)
    requires c !in s
    ensures Split(s, c) == [s]
  {
  }

  /** The first separator ends the first piece, and the rest is split on its own. */
  lemma SplitAt(a: string, b: string, c: char)
    requires c !in a
    ensures Split(a + [c] + b, c) == [a] + Split(b, c)
  {
    var s := a + [c] + b;
    var k := IndexOf(s, c);
    assert s[|a|] == c && s[..|a|] == a && s[|a| + 1..] == b;
  }

  /** Splitting parts joined by a separator none of them holds gives the parts back. */
  lemma {:induction false} SplitJoin(parts: seq<string>, c: char)
    requires |parts| >= 1 && forall i :: 0 <= i < |parts| ==> c !in parts[i]
    ensures Split(Join(parts, [c]), c) == parts
    decreases |parts|
  {
    if |parts| == 1 {
      SplitNone(parts[0], c);
    } else {
      SplitJoin(parts[1..], c);
      assert Join(parts, [c]) == parts[0] + [c] + Join(parts[1..], [c]);
      SplitAt(parts[0], Join(parts[1..], [c]), c);
      assert parts == [parts[0]] + parts[1..];
    }
  }

  /** `a.split("=")[1]`: the text between the first and the second `=`, or up to the end
      when there is no second one; `undefined` without any `=`. */
  function AfterEquals(a: string): (r: Option<string>) {
    var parts := Split(a, '=');
    if |parts| >= 2 then Some(parts[1]) else None
  }

  /** `AfterEquals` is `undefined` exactly when there is no `=`; otherwise it is the text
      after the first `=`, up to the next `=` or the end. */
  lemma AfterEqualsMeaning(a: string)
    ensures AfterEquals(a).None? <==> '=' !in a
    ensures '=' in a ==>
      var k := IndexOf(a, '=');
      var t := AfterEquals(a).value;
      && '=' !in t && StartsWith(a[k + 1..], t)
      && (k + 1 + |t| == |a| || a[k + 1 + |t|] == '=')
  {
    SplitSecond(a, '=');
  }

  /** The entries from index `i` on. */
  function Rest<T>(argv: seq<T>, i: nat): seq<T> {
    if i <= |argv| then argv[i..] else []
  }

  /** The non-whitespace runs of `s`, in order: the words a reader sees. */
  function Words(s: string): seq<string>
    decreases |s|
  {
    if s == [] then []
    else if IsSpace(s[0]) then Words(s[1..])
    else
      var k := WordEnd(s, 0);
      [s[..k]] + Words(s[k..])
  }

  /** End of the non-whitespace run that starts at `i`. */
  function WordEnd(s: string, i: nat): (k: nat)
    requires i <= |s|
    ensures i <= k <= |s|
    ensures forall j :: i <= j < k ==> !IsSpace(s[j])
    ensures k == |s| || IsSpace(s[k])
    decreases |s| - i
  {
    if i < |s| && !IsSpace(s[i]) then WordEnd(s, i + 1) else i
  }

  /** The word `s` starts with: its characters up to the first whitespace. */
  function LeadWord(s: string): (r: string)
    ensures |r| <= |s| && s[..|r|] == r && NoSpace(r)
    ensures |r| == |s| || IsSpace(s[|r|])
  {
    s[..WordEnd(s, 0)]
  }

  /** Any end of the non-whitespace run from `i` is the one WordEnd finds. */
  lemma {:induction false} WordEndAt(s: string, i: nat, k: nat)
    requires i <= k <= |s|
    requires forall j :: i <= j < k ==> !IsSpace(s[j])
    requires k == |s| || IsSpace(s[k])
    ensures WordEnd(s, i) == k
    decreases k - i
  {
    if i < k {
      WordEndAt(s, i + 1, k);
    }
  }

  /** Text appended after a whitespace leaves the leading word alone. */
  lemma LeadWordAppend(a: string, b: string)
    requires |LeadWord(a)| < |a| || b == [] || IsSpace(b[0])
    ensures LeadWord(a + b) == LeadWord(a)
  {
    var k := |LeadWord(a)|;
    assert forall j :: 0 <= j < k ==> (a + b)[j] == a[j];
    if k < |a| {
      assert (a + b)[k] == a[k];
    } else if b != [] {
      assert (a + b)[k] == b[0];
    }
    WordEndAt(a + b, 0, k);
    assert (a + b)[..k] == a[..k];
  }

  /** Start of the non-whitespace run that ends at `i`. */
  function WordStart(s: string, i: nat): (k: nat)
    requires i <= |s|
    ensures k <= i
    ensures forall j :: k <= j < i ==> !IsSpace(s[j])
    ensures k == 0 || IsSpace(s[k - 1])
  {
    if i > 0 && !IsSpace(s[i - 1]) then WordStart(s, i - 1) else i
  }

  /** Any start of a non-whitespace run ending at `i` is the one WordStart finds. */
  lemma WordStartAt(s: string, i: nat, k: nat)
    requires k <= i <= |s|
    requires forall j :: k <= j < i ==> !IsSpace(s[j])
    requires k == 0 || IsSpace(s[k - 1])
    ensures WordStart(s, i) == k
  {
  }

  /** Any start of a whitespace run ending at `i` is the one SpaceRunStart finds. */
  lemma SpaceRunStartAt(s: string, i: nat, k: nat)
    requires k <= i <= |s|
    requires forall j :: k <= j < i ==> IsSpace(s[j])
    requires k == 0 || !IsSpace(s[k - 1])
    ensures SpaceRunStart(s, i) == k
  {
  }

  /** Splitting off the last word of `s[..i]`, which ends in a non-whitespace character. */
  lemma LastWord(s: string, i: nat)
    requires 0 < i <= |s| && !IsSpace(s[i - 1])
    ensures var k := WordStart(s, i);
      k < i && Words(s[..i]) == Words(s[..k]) + [s[k..i]]
  {
    var k := WordStart(s, i);
    assert s[..i] == s[..k] + s[k..i];
    assert k > 0 ==> s[..k][k - 1] == s[k - 1];
    WordsAppend(s[..k], s[k..i]);
    assert NoSpace(s[k..i]) by {
      forall j | 0 <= j < i - k ensures !IsSpace(s[k..i][j]) {
        assert s[k..i][j] == s[k + j];
      }
    }
    WordsOfWord(s[k..i]);
  }

  /** `ws` are the words of `s`, split into the last word `s[e..]`, the one before it `s[p..m]`
      (when there is one) and the words in front of them. */
  ghost predicate LastWords(ws: seq<string>, s: string)
    requires s != []
  {
    var e := WordStart(s, |s|);
    var m := SpaceRunStart(s, e);
    LastWordsAt(ws, s, e, m, WordStart(s, m))
  }

  ghost predicate LastWordsAt(ws: seq<string>, s: string, e: nat, m: nat, p: nat)
    requires p <= m <= e <= |s|
  {
    && |ws| >= 1 && ws[|ws| - 1] == s[e..] && ws[..|ws| - 1] == Words(s[..e])
    && (m == 0 ==> |ws| == 1)
    && (m > 0 ==> |ws| >= 2 && ws[|ws| - 2] == s[p..m] && ws[..|ws| - 2] == Words(s[..p]))
  }

  /** The last two words of a string that ends in a non-whitespace character: the last one
      starts at `e`, whitespace runs from `m` to `e`, and the one before starts at `p`. */
  lemma LastTwoWords(s: string)
    requires s != [] && !IsSpace(s[|s| - 1])
    ensures LastWords(Words(s), s)
  {
    var e := WordStart(s, |s|);
    var m := SpaceRunStart(s, e);
    var p := WordStart(s, m);
    var front := Words(s[..e]);
    assert Words(s) == front + [s[e..]] by {
      assert s[..|s|] == s && s[e..|s|] == s[e..];
      LastWord(s, |s|);
    }
    assert front == Words(s[..m]) by {
      WordsBeforeSpace(s, e);
    }
    if m > 0 {
      assert front == Words(s[..p]) + [s[p..m]] by {
        LastWord(s, m);
      }
    } else {
      assert front == [] by {
        assert s[..m] == [];
      }
    }
    LastWordsIntro(Words(s), s, front, e, m, p);
  }

  /** LastWords from the split of `ws` into the front and the last word, and of the front into
      its own front and last word. */
  lemma LastWordsIntro(ws: seq<string>, s: string, front: seq<string>, e: nat, m: nat, p: nat)
    requires p <= m <= e <= |s|
    requires ws == front + [s[e..]] && front == Words(s[..e])
    requires m == 0 ==> front == []
    requires m > 0 ==> front == Words(s[..p]) + [s[p..m]]
    ensures LastWordsAt(ws, s, e, m, p)
  {
    assert ws[..|ws| - 1] == front;
    if m > 0 {
      assert ws[..|ws| - 2] == front[..|front| - 1];
    }
  }

  /** Whitespace ending at `i` adds no word. */
  lemma WordsBeforeSpace(s: string, i: nat)
    requires i <= |s|
    ensures Words(s[..i]) == Words(s[..SpaceRunStart(s, i)])
  {
    var k := SpaceRunStart(s, i);
    assert s[..i] == s[..k] + s[k..i];
    assert AllSpace(s[k..i]) by {
      forall j | 0 <= j < i - k ensures IsSpace(s[k..i][j]) {
        assert s[k..i][j] == s[k + j];
      }
    }
    assert k < i ==> s[k..i][0] == s[k];
    WordsAppend(s[..k], s[k..i]);
    WordsOfSpace(s[k..i]);
  }

  /** A string has no words exactly when trimming its end leaves nothing. */
  lemma NoWords(s: string)
    ensures TrimEnd(s) == [] <==> Words(s) == []
  {
    var t := TrimEnd(s);
    WordsTrimEnd(s);
    if t != [] {
      LastWord(t, |t|);
      assert t[..|t|] == t;
    }
  }

  /** Every word is non-empty and free of whitespace. */
  lemma {:induction false} WordsAreWords(s: string)
    ensures forall k :: 0 <= k < |Words(s)| ==> Words(s)[k] != [] && NoSpace(Words(s)[k])
    decreases |s|
  {
    if s == [] {
    } else if IsSpace(s[0]) {
      WordsAreWords(s[1..]);
    } else {
      var k := WordEnd(s, 0);
      FirstWord(s);
      WordsAreWords(s[k..]);
    }
  }

  lemma {:induction false} WordsOfSpace(s: string)
    requires AllSpace(s)
    ensures Words(s) == []
  {
    if s != [] {
      WordsOfSpace(s[1..]);
    }
  }

  lemma WordsOfWord(s: string)
    requires s != [] && NoSpace(s)
    ensures Words(s) == [s]
  {
    var k := WordEnd(s, 0);
    assert k == |s|;
    assert s[..k] == s && s[k..] == [];
  }

  /** Words of a string whose first word is `w` and whose remainder starts with whitespace. */
  lemma {:induction false} WordsCons(w: string, b: string)
    requires w != [] && NoSpace(w)
    requires b == [] || IsSpace(b[0])
    ensures Words(w + b) == [w] + Words(b)
  {
    var s := w + b;
    var k := WordEnd(s, 0);
    assert forall j | 0 <= j < |w| :: s[j] == w[j] && !IsSpace(s[j]);
    assert |w| < |s| ==> s[|w|] == b[0];
    assert k == |w|;
    assert s[..k] == w && s[k..] == b;
  }

  /** Words are additive across a junction that has whitespace on at least one side. */
  lemma {:induction false} WordsAppend(a: string, b: string)
    requires a == [] || b == [] || IsSpace(a[|a| - 1]) || IsSpace(b[0])
    ensures Words(a + b) == Words(a) + Words(b)
    decreases |a|
  {
    if a == [] {
      assert a + b == b;
    } else if b == [] {
      assert a + b == a;
    } else if IsSpace(a[0]) {
      WordsAppendSpaceHead(a, b);
    } else {
      WordsAppendWordHead(a, b);
    }
  }

  lemma {:induction false} WordsAppendSpaceHead(a: string, b: string)
    requires a != [] && b != [] && IsSpace(a[0])
    requires IsSpace(a[|a| - 1]) || IsSpace(b[0])
    ensures Words(a + b) == Words(a) + Words(b)
    decreases |a|, 0
  {
    assert (a + b)[0] == a[0];
    assert (a + b)[1..] == a[1..] + b;
    WordsAppend(a[1..], b);
  }

  lemma {:induction false} WordsAppendWordHead(a: string, b: string)
    requires a != [] && b != [] && !IsSpace(a[0])
    requires IsSpace(a[|a| - 1]) || IsSpace(b[0])
    ensures Words(a + b) == Words(a) + Words(b)
    decreases |a|, 0
  {
    var k := WordEnd(a, 0);
    var w, rest := a[..k], a[k..];
    assert Words(a) == [w] + Words(rest);
    if rest == [] {
      assert Words(a + b) == [w] + Words(b) by {
        FirstWord(a);
        assert a == w;
        WordsCons(w, b);
      }
    } else {
      assert Words(a + b) == [w] + Words(rest + b) by {
        FirstWord(a);
        AppendAssoc(w, rest, b);
        WordsCons(w, rest + b);
      }
      assert Words(rest + b) == Words(rest) + Words(b) by {
        FirstWord(a);
        WordsAppend(rest, b);
      }
      AppendAssoc([w], Words(rest), Words(b));
    }
  }

  /** Splitting off the first word of a string that starts with one. */
  lemma FirstWord(a: string)
    requires a != [] && !IsSpace(a[0])
    ensures var k := WordEnd(a, 0);
      && 0 < k && NoSpace(a[..k]) && a[..k] + a[k..] == a
      && (a[k..] == [] || IsSpace(a[k..][0]))
      && Words(a) == [a[..k]] + Words(a[k..])
  {
    var k := WordEnd(a, 0);
    assert forall j :: 0 <= j < k ==> a[..k][j] == a[j];
  }

  /** Words are additive across a separator that is whitespace. */
  lemma WordsSpaced(a: string, sep: string, b: string)
    requires sep != [] && AllSpace(sep)
    ensures Words(a + sep + b) == Words(a) + Words(b)
  {
    assert Words(a + sep) == Words(a) by {
      WordsAppend(a, sep);
      WordsOfSpace(sep);
    }
    assert Words(a + sep + b) == Words(a + sep) + Words(b) by {
      assert (a + sep)[|a + sep| - 1] == sep[|sep| - 1];
      WordsAppend(a + sep, b);
    }
  }

  /** Two words separated by whitespace. */
  lemma WordsOfTwo(a: string, sep: string, b: string)
    requires a != [] && NoSpace(a) && b != [] && NoSpace(b)
    requires sep != [] && AllSpace(sep)
    ensures Words(a + sep + b) == [a, b]
  {
    WordsOfWord(a);
    WordsOfWord(b);
    WordsSpaced(a, sep, b);
  }

  /** Three words separated by whitespace. */
  lemma WordsOfThree(a: string, sep1: string, b: string, sep2: string, c: string)
    requires a != [] && NoSpace(a) && b != [] && NoSpace(b) && c != [] && NoSpace(c)
    requires sep1 != [] && AllSpace(sep1) && sep2 != [] && AllSpace(sep2)
    ensures Words(a + sep1 + b + sep2 + c) == [a, b, c]
  {
    WordsOfTwo(a, sep1, b);
    WordsOfWord(c);
    WordsSpaced(a + sep1 + b, sep2, c);
  }

  lemma WordsTrimEnd(s: string)
    ensures Words(TrimEnd(s)) == Words(s)
  {
    var r := TrimEnd(s);
    assert s == r + s[|r|..];
    WordsAppend(r, s[|r|..]);
    WordsOfSpace(s[|r|..]);
  }

  lemma WordsTrimStart(s: string)
    ensures Words(TrimStart(s)) == Words(s)
  {
    var r := TrimStart(s);
    var w := s[..|s| - |r|];
    assert s == w + r;
    WordsAppend(w, r);
    WordsOfSpace(w);
  }

  /** Words of every piece, in order. */
  function AllWords(parts: seq<string>): seq<string> {
    if parts == [] then [] else Words(parts[0]) + AllWords(parts[1..])
  }

  lemma {:induction false} AllWordsAppend(a: seq<string>, b: seq<string>)
    ensures AllWords(a + b) == AllWords(a) + AllWords(b)
  {
    if a == [] {
      assert a + b == b;
    } else {
      assert (a + b)[1..] == a[1..] + b;
      AllWordsAppend(a[1..], b);
    }
  }

  lemma AllWordsSnoc(a: seq<string>, s: string)
    ensures AllWords(a + [s]) == AllWords(a) + Words(s)
  {
    AllWordsAppend(a, [s]);
  }

  /** Splitting on a whitespace character keeps every word, in order. */
  lemma {:induction false} WordsOfSplit(s: string, c: char)
    requires IsSpace(c)
    ensures AllWords(Split(s, c)) == Words(s)
    decreases |s|
  {
    var k := IndexOf(s, c);
    if k != -1 {
      assert s == s[..k] + [c] + s[k + 1..];
      WordsSpaced(s[..k], [c], s[k + 1..]);
      WordsOfSplit(s[k + 1..], c);
    }
  }

  /** Decimal digits of a natural number (`String(n)`). */
  function NatToString(n: nat): (r: string)
    ensures |r| >= 1
    ensures forall i :: 0 <= i < |r| ==> '0' <= r[i] <= '9'
    ensures r[0] == '0' <==> n == 0
    ensures n == 0 ==> r == "0"
  {
    if n < 10 then [('0' as int + n) as char]
    else NatToString(n / 10) + [('0' as int + n % 10) as char]
  }

  /** `String(i)` for an integer. */
  function IntToString(i: int): (r: string)
    ensures r != []
    ensures i >= 0 ==> r == NatToString(i)
    ensures Decimal(r)
  {
    if i < 0 then
      var r := "-" + NatToString(-i);
      assert r[1..] == NatToString(-i);
      r
    else NatToString(i)
  }

  /** Digits only, with no leading zero unless the number is 0. */
  predicate Digits(s: string) {
    |s| >= 1 && (forall i :: 0 <= i < |s| ==> '0' <= s[i] <= '9') && (s[0] == '0' ==> |s| == 1)
  }

  /** The text `String(i)` writes for an integer: an optional minus sign, then digits without
      a leading zero, and never `-0`. */
  predicate Decimal(s: string) {
    if s != [] && s[0] == '-' then Digits(s[1..]) && s[1..] != "0" else Digits(s)
  }

  /** Decimal digits read back as a number. */
  function DigitsValue(s: string): nat {
    if s == [] then 0
    else DigitsValue(s[..|s| - 1]) * 10 + (if '0' <= s[|s| - 1] <= '9' then s[|s| - 1] as int - '0' as int else 0)
  }

  /** Reading the digits of a number gives the number back. */
  lemma {:induction false} DigitsValueOf(n: nat)
    ensures DigitsValue(NatToString(n)) == n
  {
    if n >= 10 {
      var s := NatToString(n);
      assert s[..|s| - 1] == NatToString(n / 10);
      DigitsValueOf(n / 10);
    }
  }

  /** A decimal integer read back, with a leading minus sign for a negative one. */
  function IntValue(s: string): int {
    if s != [] && s[0] == '-' then -(DigitsValue(s[1..]) as int) else DigitsValue(s)
  }

  /** Reading `String(i)` back gives `i`. */
  lemma IntValueOf(i: int)
    ensures IntValue(IntToString(i)) == i
  {
    if i < 0 {
      var s := IntToString(i);
      assert s[1..] == NatToString(-i);
      DigitsValueOf(-i);
    } else {
      DigitsValueOf(i);
    }
  }

  /** Digits without a leading zero that are not `0` stand for a positive number. */
  lemma {:induction false} DigitsPositive(s: string)
    requires Digits(s) && s != "0"
    ensures DigitsValue(s) >= 1
    decreases |s|
  {
    if |s| > 1 {
      var p := s[..|s| - 1];
      assert p[0] == s[0];
      DigitsPositive(p);
    }
  }

  /** Digits are the text of their own value. */
  lemma {:induction false} DigitsRoundTrip(s: string)
    requires Digits(s)
    ensures NatToString(DigitsValue(s)) == s
    decreases |s|
  {
    if |s| > 1 {
      var p := s[..|s| - 1];
      assert p[0] == s[0];
      DigitsPositive(p);
      DigitsRoundTrip(p);
      var v := DigitsValue(s);
      assert v / 10 == DigitsValue(p) && v % 10 == s[|s| - 1] as int - '0' as int;
      assert s == p + [s[|s| - 1]];
    }
  }

  /** Decimal text is the text of its own value: together with `IntValueOf`, `IntValue` and
      `IntToString` are inverse on it. */
  lemma DecimalRoundTrip(s: string)
    requires Decimal(s)
    ensures IntToString(IntValue(s)) == s
  {
    if s[0] == '-' {
      DigitsPositive(s[1..]);
      DigitsRoundTrip(s[1..]);
      assert s == "-" + s[1..];
    } else {
      DigitsRoundTrip(s);
    }
  }

  /** Number of decimal digits of `n`. */
  function DigitCount(n: nat): nat {
    |NatToString(n)|
  }

  /** A larger number never has fewer digits. */
  lemma {:induction false} DigitCountMonotone(m: nat, n: nat)
    requires m <= n
    ensures DigitCount(m) <= DigitCount(n)
    decreases n
  {
    if m >= 10 {
      DigitCountMonotone(m / 10, n / 10);
    }
  }

  /** `s.slice(0, end)` with JavaScript's treatment of negative and oversized ends. */
  function SlicePrefix(s: string, end: int): (r: string)
    // a prefix of `s`, as long as `end` clamped to `s`, a negative `end` counting back from
    // its end
    ensures |r| <= |s| && s[..|r|] == r
    ensures end >= 0 ==> |r| == if end <= |s| then end else |s|
    ensures end < 0 ==> |r| == if |s| + end >= 0 then |s| + end else 0
  {
    if end >= 0 then s[..if end <= |s| then end else |s|]
    else s[..if |s| + end >= 0 then |s| + end else 0]
  }

  /** `s.padStart(n, " ")`. */
  function PadStart(s: string, n: int): (r: string)
    ensures |r| == if n > |s| then n else |s|
    ensures r[|r| - |s|..] == s
    ensures Blank(r[..|r| - |s|])
  {
    if n > |s| then Spaces(n - |s|) + s else s
  }
}
