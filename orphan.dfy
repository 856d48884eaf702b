/** The orphan-word rule of `src/wrap.ts`: before breaking a line, a short function word (or a
    preposition followed by an article) left at the end of the line is carried over to the
    next one. The two regular expressions are modelled as leftmost-match searches, and each
    search is tied to a reference definition of what a match is. */
module Orphan {
  import opened Text

  const Prepositions: seq<string> := ["with", "in", "on", "of", "to", "for"]
  const Articles: seq<string> := ["a", "an", "the"]
  const Singles: seq<string> := ["a", "an", "the", "to", "of", "with", "and", "or", "in", "on", "for"]

  /** `s` is one of the (lower-case) words of `list`, ignoring ASCII case (the `/i` flag). */
  predicate InList(s: string, list: seq<string>) {
    LowerAll(s) in list
  }

  predicate Letters(w: string) {
    w != [] && forall i :: 0 <= i < |w| ==> 'a' <= w[i] <= 'z'
  }

  predicate AllLetters(list: seq<string>) {
    forall k :: 0 <= k < |list| ==> Letters(list[k])
  }

  lemma ListsAreLetters()
    ensures AllLetters(Prepositions) && AllLetters(Articles) && AllLetters(Singles)
  {
  }

  /** A string that matches a listed word is made of word characters, none of them
      whitespace. */
  lemma InListIsWord(s: string, list: seq<string>)
    requires InList(s, list) && AllLetters(list)
    ensures s != [] && NoSpace(s)
    ensures forall i :: 0 <= i < |s| ==> IsWordChar(s[i])
  {
    var k :| 0 <= k < |list| && list[k] == LowerAll(s);
    assert Letters(list[k]);
    forall i | 0 <= i < |s| ensures IsWordChar(s[i]) && !IsSpace(s[i]) {
      assert Lower(s[i]) == list[k][i];
    }
  }

  /** The characters of `s[a..b]`, when that slice is a listed word, are word characters. */
  lemma WordSlice(s: string, a: nat, b: nat, list: seq<string>)
    requires a <= b <= |s| && InList(s[a..b], list) && AllLetters(list)
    ensures a < b
    ensures forall j :: a <= j < b ==> IsWordChar(s[j]) && !IsSpace(s[j])
  {
    InListIsWord(s[a..b], list);
    assert forall j :: a <= j < b ==> s[j] == s[a..b][j - a];
  }

  /** Where a listed word may start. `\b` as written: the previous character, if any, is not
      a word character. The corrected rule (`strict`): the previous character, if any, is
      whitespace, so the word is a whole whitespace-delimited token. */
  predicate Starts(s: string, p: nat, strict: bool)
    requires p <= |s|
  {
    p == 0 || (if strict then IsSpace(s[p - 1]) else !IsWordChar(s[p - 1]))
  }

  lemma StrictStarts(s: string, p: nat)
    requires p <= |s| && Starts(s, p, true)
    ensures Starts(s, p, false)
  {
  }

  /** Reference definition: `/\b(a|an|the|to|of|with|and|or|in|on|for)$/i` matches at `p`. */
  ghost predicate SingleMatch(s: string, p: nat, strict: bool) {
    p <= |s| && Starts(s, p, strict) && InList(s[p..], Singles)
  }

  /** Reference definition: `/\b(with|in|on|of|to|for)\s+(a|an|the)$/i` matches with the
      preposition at `s[p..m]`, whitespace at `s[m..e]` and the article at `s[e..]`. */
  ghost predicate PhraseMatch(s: string, p: nat, m: nat, e: nat, strict: bool) {
    p < m < e <= |s| && Starts(s, p, strict) && InList(s[p..m], Prepositions)
    && AllSpace(s[m..e]) && InList(s[e..], Articles)
  }

  /** Leftmost `p >= from` where a word of `list` starts and ends the string. */
  function WordAtEnd(s: string, from: nat, list: seq<string>, strict: bool): (r: Option<nat>)
    ensures r.None? ==>
      forall p :: from <= p <= |s| && Starts(s, p, strict) ==> !InList(s[p..], list)
    ensures r.Some? ==>
      from <= r.value <= |s| && Starts(s, r.value, strict) && InList(s[r.value..], list)
    decreases |s| + 1 - from
  {
    if from > |s| then None
    else if Starts(s, from, strict) && InList(s[from..], list) then Some(from)
    else WordAtEnd(s, from + 1, list, strict)
  }

  /** Leftmost `p >= from` where a word of `list` starts and runs up to `m`. */
  function WordBefore(s: string, from: nat, m: nat, list: seq<string>, strict: bool): (r: Option<nat>)
    requires m <= |s|
    ensures r.None? ==>
      forall p :: from <= p < m && Starts(s, p, strict) ==> !InList(s[p..m], list)
    ensures r.Some? ==>
      from <= r.value < m && Starts(s, r.value, strict) && InList(s[r.value..m], list)
    decreases m - from
  {
    if from >= m then None
    else if Starts(s, from, strict) && InList(s[from..m], list) then Some(from)
    else WordBefore(s, from + 1, m, list, strict)
  }

  /** A match: where it starts in the searched string, and the tail text `orphanPhraseTail`
      returns for it. */
  datatype Tail = Tail(start: nat, text: string)

  /** The phrase pattern: an article preceded by whitespace ends the string, and a preposition
      ends right before that whitespace; rebuilt as `${preposition} ${article}`. */
  function FindPhrase(s: string, strict: bool): (r: Option<Tail>)
    ensures r.Some? ==> r.value.start <= |s|
  {
    PhraseBefore(s, WordAtEnd(s, 0, Articles, true), strict)
  }

  /** The phrase that ends with the article found at `article`, if a preposition ends right
      before the whitespace in front of it. */
  function PhraseBefore(s: string, article: Option<nat>, strict: bool): (r: Option<Tail>)
    requires article.Some? ==> article.value <= |s|
    ensures r.Some? ==> r.value.start <= |s|
  {
    match article
    case None => None
    case Some(e) =>
      var m := SpaceRunStart(s, e);
      match WordBefore(s, 0, m, Prepositions, strict)
      case None => None
      case Some(p) => Some(Tail(p, s[p..m] + " " + s[e..]))
  }

  /** The single-word pattern: the matched word itself. */
  function FindSingle(s: string, strict: bool): (r: Option<Tail>)
    ensures r.Some? ==> r.value.start <= |s|
  {
    match WordAtEnd(s, 0, Singles, strict)
    case None => None
    case Some(p) => Some(Tail(p, s[p..]))
  }

  /** `orphanPhraseTail(s)`: the phrase pattern first, then the single word, both on the
      string with its trailing whitespace removed. */
  function OrphanPhraseTail(s: string, strict: bool): (r: Option<Tail>)
    ensures r.Some? ==> r.value.start <= |TrimEnd(s)|
  {
    var trimmed := TrimEnd(s);
    match FindPhrase(trimmed, strict)
    case Some(t) => Some(t)
    case None => FindSingle(trimmed, strict)
  }

  /** Two positions where a word of `list` (made of letters) starts and ends at `b`
      coincide: each would otherwise cover the character before the other. */
  lemma SameStart(s: string, p: nat, q: nat, b: nat, list: seq<string>, strict: bool)
    requires p <= b <= |s| && q <= b && AllLetters(list)
    requires Starts(s, p, strict) && Starts(s, q, strict)
    requires InList(s[p..b], list) && InList(s[q..b], list)
    ensures p == q
  {
    WordSlice(s, p, b, list);
    WordSlice(s, q, b, list);
    if strict {
      StrictStarts(s, p);
      StrictStarts(s, q);
    }
  }

  /** The phrase search finds a match exactly when the pattern matches, and then reports it. */
  lemma FindPhraseSound(s: string, strict: bool)
    requires FindPhrase(s, strict).Some?
    ensures var t := FindPhrase(s, strict).value;
      exists m: nat, e: nat :: PhraseMatch(s, t.start, m, e, strict) && t.text == s[t.start..m] + " " + s[e..]
  {
    var e := WordAtEnd(s, 0, Articles, true).value;
    var m := SpaceRunStart(s, e);
    var p := WordBefore(s, 0, m, Prepositions, strict).value;
    assert AllSpace(s[m..e]) by {
      forall j | 0 <= j < e - m ensures IsSpace(s[m..e][j]) {
        assert s[m..e][j] == s[m + j];
      }
    }
    assert PhraseMatch(s, p, m, e, strict);
  }

  lemma FindPhraseComplete(s: string, p: nat, m: nat, e: nat, strict: bool)
    requires PhraseMatch(s, p, m, e, strict)
    ensures FindPhrase(s, strict) == Some(Tail(p, s[p..m] + " " + s[e..]))
  {
    ListsAreLetters();
    assert s[e..] == s[e..|s|];
    assert IsSpace(s[e - 1]) && IsSpace(s[m]) && Starts(s, e, true) by {
      assert s[e - 1] == s[m..e][e - 1 - m];
      assert s[m] == s[m..e][0];
    }
    // the article search stops at e
    var e' := WordAtEnd(s, 0, Articles, true).value;
    assert s[e'..] == s[e'..|s|];
    SameStart(s, e', e, |s|, Articles, true);
    // the whitespace run before the article starts right after the preposition
    WordSlice(s, p, m, Prepositions);
    var k := SpaceRunStart(s, e);
    assert forall j :: m <= j < e ==> IsSpace(s[j]) by {
      forall j | m <= j < e ensures IsSpace(s[j]) {
        assert s[j] == s[m..e][j - m];
      }
    }
    assert !IsSpace(s[m - 1]);
    assert k == m;
    // the preposition search stops at p
    var p' := WordBefore(s, 0, m, Prepositions, strict).value;
    SameStart(s, p', p, m, Prepositions, strict);
  }

  /** The single-word search finds the match exactly when the pattern matches. */
  lemma FindSingleComplete(s: string, p: nat, strict: bool)
    requires SingleMatch(s, p, strict)
    ensures FindSingle(s, strict) == Some(Tail(p, s[p..]))
  {
    ListsAreLetters();
    assert s[p..] == s[p..|s|];
    var p' := WordAtEnd(s, 0, Singles, strict).value;
    assert s[p'..] == s[p'..|s|];
    SameStart(s, p', p, |s|, Singles, strict);
  }

  /** Positions of a whole-token phrase match are those of the last two tokens. */
  lemma PhraseMatchCanonical(s: string, p: nat, m: nat, e: nat)
    requires PhraseMatch(s, p, m, e, true)
    ensures e == WordStart(s, |s|) && m == SpaceRunStart(s, e) && p == WordStart(s, m)
  {
    ListsAreLetters();
    assert s[e..] == s[e..|s|];
    WordSlice(s, e, |s|, Articles);
    WordSlice(s, p, m, Prepositions);
    assert forall j :: m <= j < e ==> IsSpace(s[j]) by {
      forall j | m <= j < e ensures IsSpace(s[j]) {
        assert s[j] == s[m..e][j - m];
      }
    }
    WordStartAt(s, |s|, e);
    SpaceRunStartAt(s, e, m);
    WordStartAt(s, m, p);
  }

  /** On a string without trailing whitespace, the whole-token search for a word of `list`
      at the end finds the last token when it is listed, and nothing otherwise. */
  lemma WordAtEndIsLast(s: string, list: seq<string>)
    requires s != [] && !IsSpace(s[|s| - 1]) && AllLetters(list)
    ensures var e := WordStart(s, |s|);
      WordAtEnd(s, 0, list, true) == if InList(s[e..], list) then Some(e) else None
  {
    var r := WordAtEnd(s, 0, list, true);
    if r.Some? {
      ListedAtEnd(s, r.value, list);
    } else {
      WordStartStarts(s, |s|);
    }
  }

  /** A listed word that starts a whole token and ends the string is the last token. */
  lemma ListedAtEnd(s: string, q: nat, list: seq<string>)
    requires q <= |s| && Starts(s, q, true) && InList(s[q..], list) && AllLetters(list)
    ensures q == WordStart(s, |s|)
  {
    assert s[q..] == s[q..|s|];
    WordSlice(s, q, |s|, list);
    WordStartAt(s, |s|, q);
  }

  /** A token starts where WordStart stops. */
  lemma WordStartStarts(s: string, i: nat)
    requires i <= |s|
    ensures Starts(s, WordStart(s, i), true)
  {
  }

  /** The whole-token search for a word of `list` ending at `m`, where a token ends, finds
      that token when it is listed, and nothing otherwise. */
  lemma WordBeforeIsLast(s: string, m: nat, list: seq<string>)
    requires 0 < m <= |s| && !IsSpace(s[m - 1]) && AllLetters(list)
    ensures var p := WordStart(s, m);
      WordBefore(s, 0, m, list, true) == if InList(s[p..m], list) then Some(p) else None
  {
    var p := WordStart(s, m);
    var r := WordBefore(s, 0, m, list, true);
    if r.Some? {
      WordSlice(s, r.value, m, list);
      WordStartAt(s, m, r.value);
    }
  }

  /** On a string without trailing whitespace, the whole-token phrase search reports the last
      two tokens when they are a preposition and an article, and nothing otherwise. */
  lemma PhraseAtEnd(s: string)
    requires s != [] && !IsSpace(s[|s| - 1])
    ensures var e := WordStart(s, |s|);
      var m := SpaceRunStart(s, e);
      var p := WordStart(s, m);
      FindPhrase(s, true)
        == if m > 0 && InList(s[p..m], Prepositions) && InList(s[e..], Articles)
           then Some(Tail(p, s[p..m] + " " + s[e..])) else None
  {
    var e := WordStart(s, |s|);
    var m := SpaceRunStart(s, e);
    var p := WordStart(s, m);
    assert WordAtEnd(s, 0, Articles, true) == if InList(s[e..], Articles) then Some(e) else None by {
      ListsAreLetters();
      WordAtEndIsLast(s, Articles);
    }
    if InList(s[e..], Articles) && m > 0 {
      assert WordBefore(s, 0, m, Prepositions, true)
          == if InList(s[p..m], Prepositions) then Some(p) else None by {
        ListsAreLetters();
        WordBeforeIsLast(s, m, Prepositions);
      }
    }
  }

  /** On a string without trailing whitespace, the whole-token single-word search reports the
      last token when it is listed, and nothing otherwise. */
  lemma SingleAtEnd(s: string)
    requires s != [] && !IsSpace(s[|s| - 1])
    ensures var e := WordStart(s, |s|);
      FindSingle(s, true) == if InList(s[e..], Singles) then Some(Tail(e, s[e..])) else None
  {
    ListsAreLetters();
    WordAtEndIsLast(s, Singles);
  }

  /** The rule's effect on a line, at wrap.ts:41-53: the line pushed in place of the current
      one, and the tail that starts the next line. */
  datatype Split = Split(base: string, tail: string)

  /** wrap.ts:41-47 as written: the tail is matched with `\b`, and the base is the line cut at
      the length of the rebuilt tail. */
  function OrphanSplitAsWritten(line: string): Option<Split> {
    CutAsWritten(line, OrphanPhraseTail(line, false))
  }

  /** wrap.ts:43-46: the line cut at the length of the tail text, when it is longer than that
      text and something other than whitespace is left. */
  function CutAsWritten(line: string, tail: Option<Tail>): Option<Split> {
    match tail
    case None => None
    case Some(t) =>
      if |line| > |t.text| then
        var base := TrimEnd(line[..|line| - |t.text|]);
        if base != [] then Some(Split(base, t.text)) else None
      else None
  }

  /** The line cut where the tail found in it starts: the base is what precedes the tail,
      without trailing whitespace, and must not be empty. */
  function SplitAt(line: string, tail: Option<Tail>): (r: Option<Split>)
    requires tail.Some? ==> tail.value.start <= |TrimEnd(line)|
    ensures r.Some? ==> r.value.base != [] && TrimEnd(r.value.base) == r.value.base
    ensures r.Some? ==> |r.value.base| <= |TrimEnd(line)| && line[..|r.value.base|] == r.value.base
  {
    match tail
    case None => None
    case Some(t) =>
      var base := TrimEnd(TrimEnd(line)[..t.start]);
      TrimEndIdle(base);
      if base != [] then Some(Split(base, t.text)) else None
  }

  /** The orphan rule as intended: the tail is made of whole tokens and the base is the line
      cut where the match starts. The length guard of wrap.ts:43 is subsumed by `base != ""`. */
  function OrphanSplit(line: string): (r: Option<Split>)
    ensures r.Some? ==> r.value.base != [] && TrimEnd(r.value.base) == r.value.base
    ensures r.Some? ==> |r.value.base| <= |TrimEnd(line)| && line[..|r.value.base|] == r.value.base
  {
    SplitAt(line, OrphanPhraseTail(line, true))
  }

  /** How many trailing words the orphan rule carries over: a preposition and an article,
      else one listed word, else none. */
  function TailLength(ws: seq<string>): (n: nat)
    ensures n <= 2 && n <= |ws|
  {
    if |ws| >= 2 && InList(ws[|ws| - 2], Prepositions) && InList(ws[|ws| - 1], Articles) then 2
    else if |ws| >= 1 && InList(ws[|ws| - 1], Singles) then 1
    else 0
  }

  lemma EmptyNotListed(list: seq<string>)
    requires AllLetters(list)
    ensures !InList([], list)
  {
  }

  /** The last `n` words (one or two) joined by one space: the text the rule carries over. */
  function CarriedText(ws: seq<string>, n: nat): string
    requires 0 < n <= 2 && n <= |ws|
  {
    if n == 2 then ws[|ws| - 2] + " " + ws[|ws| - 1] else ws[|ws| - 1]
  }

  /** What the split at `tail` does to `line`, stated on its words: it happens exactly when
      the line ends in `n` > 0 carried words and some word is left before them; the base then
      keeps the other words and the tail is the carried words joined by one space. */
  ghost predicate SplitsWordsAt(line: string, tail: Option<Tail>)
    requires tail.Some? ==> tail.value.start <= |TrimEnd(line)|
  {
    var ws := Words(line);
    var n := TailLength(ws);
    var r := SplitAt(line, tail);
    && (r.Some? <==> 0 < n < |ws|)
    && (r.Some? ==> Words(r.value.base) == ws[..|ws| - n] && r.value.tail == CarriedText(ws, n))
  }

  ghost predicate SplitsWords(line: string) {
    SplitsWordsAt(line, OrphanPhraseTail(line, true))
  }

  lemma OrphanSplitWords(line: string)
    ensures SplitsWords(line)
  {
    var s := TrimEnd(line);
    if s == [] {
      EmptySplit(line);
    } else {
      TailIsCanonical(line);
      var e := WordStart(s, |s|);
      var m := SpaceRunStart(s, e);
      var p := WordStart(s, m);
      if m > 0 && InList(s[p..m], Prepositions) && InList(s[e..], Articles) {
        PhraseSplit(line);
      } else if InList(s[e..], Singles) {
        SingleSplit(line);
      } else {
        NoSplit(line);
      }
    }
  }

  /** The corrected split neither loses nor repeats a word: the base and the tail hold the
      words of the line, and the tail, one or two words, starts with a word. */
  lemma OrphanSplitKeepsWords(line: string)
    requires OrphanSplit(line).Some?
    ensures var sp := OrphanSplit(line).value;
      && Words(sp.base) + Words(sp.tail) == Words(line)
      && 1 <= |Words(sp.tail)| <= 2
      && sp.tail != [] && !IsSpace(sp.tail[0])
  {
    var sp := OrphanSplit(line).value;
    var ws := Words(line);
    OrphanSplitWords(line);
    WordsAreWords(line);
    KeepsWords(ws, TailLength(ws), sp);
  }

  lemma KeepsWords(ws: seq<string>, n: nat, sp: Split)
    requires 0 < n <= 2 && n <= |ws|
    requires forall k :: 0 <= k < |ws| ==> ws[k] != [] && NoSpace(ws[k])
    requires Words(sp.base) == ws[..|ws| - n] && sp.tail == CarriedText(ws, n)
    ensures Words(sp.base) + Words(sp.tail) == ws
    ensures 1 <= |Words(sp.tail)| <= 2 && sp.tail != [] && !IsSpace(sp.tail[0])
  {
    CarriedWords(ws, n);
    assert ws == ws[..|ws| - n] + ws[|ws| - n..];
  }

  /** The carried text has exactly the carried words. */
  lemma CarriedWords(ws: seq<string>, n: nat)
    requires 0 < n <= 2 && n <= |ws|
    requires forall k :: 0 <= k < |ws| ==> ws[k] != [] && NoSpace(ws[k])
    ensures Words(CarriedText(ws, n)) == ws[|ws| - n..]
    ensures CarriedText(ws, n) != [] && !IsSpace(CarriedText(ws, n)[0])
  {
    var last := ws[|ws| - 1];
    if n == 2 {
      var prev := ws[|ws| - 2];
      WordsOfTwo(prev, " ", last);
      assert ws[|ws| - 2..] == [prev, last];
      assert (prev + " " + last)[0] == prev[0];
    } else {
      WordsOfWord(last);
      assert ws[|ws| - 1..] == [last];
    }
  }

  lemma EmptySplit(line: string)
    requires TrimEnd(line) == []
    ensures SplitsWords(line)
  {
    WordsTrimEnd(line);
    ListsAreLetters();
    EmptyNotListed(Articles);
    EmptyNotListed(Singles);
    assert TrimEnd(line)[0..] == [];
  }

  /** The tail the whole-token searches find in a non-empty string without trailing
      whitespace, read off its last two tokens. */
  function CanonicalTail(s: string): (r: Option<Tail>)
    requires s != [] && !IsSpace(s[|s| - 1])
    ensures r.Some? ==> r.value.start <= |s|
  {
    var e := WordStart(s, |s|);
    var m := SpaceRunStart(s, e);
    var p := WordStart(s, m);
    if m > 0 && InList(s[p..m], Prepositions) && InList(s[e..], Articles) then
      Some(Tail(p, s[p..m] + " " + s[e..]))
    else if InList(s[e..], Singles) then Some(Tail(e, s[e..]))
    else None
  }

  lemma TailIsCanonical(line: string)
    requires TrimEnd(line) != []
    ensures OrphanPhraseTail(line, true) == CanonicalTail(TrimEnd(line))
  {
    PhraseAtEnd(TrimEnd(line));
    SingleAtEnd(TrimEnd(line));
  }

  /** The words of a line whose trimmed form is `s`, read off the positions of its last two
      tokens. */
  lemma LineWords(line: string)
    requires TrimEnd(line) != []
    ensures LastWords(Words(line), TrimEnd(line))
  {
    WordsTrimEnd(line);
    LastTwoWords(TrimEnd(line));
  }

  lemma PhraseSplit(line: string)
    requires var s := TrimEnd(line);
      var e := WordStart(s, |s|);
      var m := SpaceRunStart(s, e);
      var p := WordStart(s, m);
      s != [] && m > 0 && InList(s[p..m], Prepositions) && InList(s[e..], Articles)
    ensures SplitsWordsAt(line, CanonicalTail(TrimEnd(line)))
  {
    var s := TrimEnd(line);
    var e := WordStart(s, |s|);
    var m := SpaceRunStart(s, e);
    var p := WordStart(s, m);
    LineWords(line);
    SplitCase(line, s[..p], 2, Tail(p, s[p..m] + " " + s[e..]));
  }

  lemma SingleSplit(line: string)
    requires var s := TrimEnd(line);
      var e := WordStart(s, |s|);
      var m := SpaceRunStart(s, e);
      var p := WordStart(s, m);
      s != [] && !(m > 0 && InList(s[p..m], Prepositions) && InList(s[e..], Articles))
      && InList(s[e..], Singles)
    ensures SplitsWordsAt(line, CanonicalTail(TrimEnd(line)))
  {
    var s := TrimEnd(line);
    var e := WordStart(s, |s|);
    LineWords(line);
    SplitCase(line, s[..e], 1, Tail(e, s[e..]));
  }

  lemma NoSplit(line: string)
    requires var s := TrimEnd(line);
      var e := WordStart(s, |s|);
      var m := SpaceRunStart(s, e);
      var p := WordStart(s, m);
      s != [] && !(m > 0 && InList(s[p..m], Prepositions) && InList(s[e..], Articles))
      && !InList(s[e..], Singles)
    ensures SplitsWordsAt(line, CanonicalTail(TrimEnd(line)))
  {
    LineWords(line);
  }

  /** The split when the tail of `n` words starts right after `before` (a prefix of the
      trimmed line, possibly with trailing whitespace). */
  lemma SplitCase(line: string, before: string, n: nat, t: Tail)
    requires 0 < n <= |Words(line)| && TailLength(Words(line)) == n
    requires Words(before) == Words(line)[..|Words(line)| - n]
    requires t.start <= |TrimEnd(line)| && TrimEnd(line)[..t.start] == before
    requires t.text == CarriedText(Words(line), n)
    ensures SplitsWordsAt(line, Some(t))
  {
    NoWords(before);
    WordsTrimEnd(before);
  }

  /** wrap.ts:43-46 as written: the tail is rebuilt with a single space, but the base is cut
      at the length of the rebuilt tail. When two spaces precede the article, the base keeps
      the first letter of the preposition, which is then carried over as well: for
      `go with  a` (a line of `go with  a friend` at width 10) the base is `go w`. The corrected
      split cuts where the match starts. */
  lemma AsWrittenKeepsLetter(g: string, w: string, art: string)
    requires g != [] && NoSpace(g)
    requires InList(w, Prepositions) && InList(art, Articles)
    ensures var line := g + " " + w + "  " + art;
      && OrphanSplitAsWritten(line) == Some(Split(g + " " + w[..1], w + " " + art))
      && Words(g + " " + w[..1]) + Words(w + " " + art) != Words(line)
      && OrphanSplit(line) == Some(Split(g, w + " " + art))
  {
    KeptLetterBase(g, w, art);
    CorrectedBase(g, w, art);
    KeptLetterWords(g, w, art);
  }

  lemma KeptLetterBase(g: string, w: string, art: string)
    requires InList(w, Prepositions) && InList(art, Articles)
    ensures OrphanSplitAsWritten(g + " " + w + "  " + art)
      == Some(Split(g + " " + w[..1], w + " " + art))
  {
    var line := g + " " + w + "  " + art;
    var base := g + " " + w[..1];
    ListsAreLetters();
    InListIsWord(w, Prepositions);
    PhraseTailOf(g, " ", w, "  ", art, false);
    CutInWord(g, w, art);
    TrimEndIdle(base);
    AsWrittenOf(line, Tail(|g| + 1, w + " " + art), base);
  }

  /** Cut at `|g| + 2`, the line keeps the first letter of the preposition. */
  lemma CutInWord(g: string, w: string, art: string)
    requires w != []
    ensures (g + " " + w + "  " + art)[..|g| + 2] == g + " " + w[..1]
  {
    assert g + " " + w + "  " + art == (g + " " + w[..1]) + (w[1..] + "  " + art);
  }

  /** Cut at `|g| + 1`, the line is the first word and a space; nothing is cut off its
      end. */
  lemma CutAtWord(g: string, w: string, art: string)
    requires art != [] && !IsSpace(art[|art| - 1])
    ensures var line := g + " " + w + "  " + art;
      TrimEnd(line) == line && line[..|g| + 1] == g + " "
  {
    var line := g + " " + w + "  " + art;
    assert line == (g + " ") + (w + "  " + art);
    assert line[|line| - 1] == art[|art| - 1];
    TrimEndIdle(line);
  }

  /** The as-written split of a line, given its tail and the cut line. */
  lemma AsWrittenOf(line: string, t: Tail, base: string)
    requires OrphanPhraseTail(line, false) == Some(t) && |line| > |t.text|
    requires TrimEnd(line[..|line| - |t.text|]) == base && base != []
    ensures OrphanSplitAsWritten(line) == Some(Split(base, t.text))
  {
  }

  lemma CorrectedBase(g: string, w: string, art: string)
    requires g != [] && NoSpace(g)
    requires InList(w, Prepositions) && InList(art, Articles)
    ensures OrphanSplit(g + " " + w + "  " + art) == Some(Split(g, w + " " + art))
  {
    var line := g + " " + w + "  " + art;
    PhraseTailOf(g, " ", w, "  ", art, true);
    ListsAreLetters();
    InListIsWord(art, Articles);
    CutAtWord(g, w, art);
    TrimEndUnique(g, " ");
    CorrectedOf(line, Tail(|g| + 1, w + " " + art), g);
  }

  /** The corrected split of a line, given its tail and the cut line. */
  lemma CorrectedOf(line: string, t: Tail, base: string)
    requires OrphanPhraseTail(line, true) == Some(t) && t.start <= |TrimEnd(line)|
    requires TrimEnd(TrimEnd(line)[..t.start]) == base && base != []
    ensures OrphanSplit(line) == Some(Split(base, t.text))
  {
  }

  lemma KeptLetterWords(g: string, w: string, art: string)
    requires g != [] && NoSpace(g)
    requires InList(w, Prepositions) && InList(art, Articles)
    ensures Words(g + " " + w[..1]) + Words(w + " " + art) != Words(g + " " + w + "  " + art)
  {
    ListsAreLetters();
    InListIsWord(w, Prepositions);
    InListIsWord(art, Articles);
    WordsOfTwo(g, " ", w[..1]);
    WordsOfTwo(w, " ", art);
    WordsOfThree(g, " ", w, "  ", art);
  }

  /** A preposition and an article, each preceded by whitespace, end the line: both forms of
      the phrase pattern report them, from the start of the preposition. */
  lemma PhraseTailOf(a: string, sep1: string, w: string, sep2: string, art: string, strict: bool)
    requires sep1 != [] && AllSpace(sep1) && sep2 != [] && AllSpace(sep2)
    requires InList(w, Prepositions) && InList(art, Articles)
    ensures OrphanPhraseTail(a + sep1 + w + sep2 + art, strict)
      == Some(Tail(|a| + |sep1|, w + " " + art))
  {
    var s := a + sep1 + w + sep2 + art;
    var p := |a| + |sep1|;
    var m := p + |w|;
    var e := m + |sep2|;
    PhraseMatchOf(a, sep1, w, sep2, art, strict);
    PhraseTailAt(s, p, m, e, strict);
    Slices(a, sep1, w, sep2, art);
  }

  /** The pieces of a string built from five pieces. */
  lemma Slices(a: string, b: string, c: string, d: string, e: string)
    ensures var s := a + b + c + d + e;
      var i := |a| + |b|;
      var j := i + |c|;
      var k := j + |d|;
      && s[..i] == a + b && s[i..j] == c && s[j..k] == d && s[k..] == e
  {
  }

  /** On a line that a phrase match ends, the match is the tail. */
  lemma PhraseTailAt(s: string, p: nat, m: nat, e: nat, strict: bool)
    requires PhraseMatch(s, p, m, e, strict)
    ensures OrphanPhraseTail(s, strict) == Some(Tail(p, s[p..m] + " " + s[e..]))
  {
    FindPhraseComplete(s, p, m, e, strict);
    assert !IsSpace(s[|s| - 1]) by {
      ListsAreLetters();
      InListIsWord(s[e..], Articles);
      assert s[|s| - 1] == s[e..][|s| - 1 - e];
    }
    PhraseFirst(s, strict);
  }

  /** On a line without trailing whitespace, a phrase match is the tail. */
  lemma PhraseFirst(s: string, strict: bool)
    requires s != [] && !IsSpace(s[|s| - 1]) && FindPhrase(s, strict).Some?
    ensures OrphanPhraseTail(s, strict) == FindPhrase(s, strict)
  {
    TrimEndIdle(s);
  }

  lemma PhraseMatchOf(a: string, sep1: string, w: string, sep2: string, art: string, strict: bool)
    requires sep1 != [] && AllSpace(sep1) && sep2 != [] && AllSpace(sep2)
    requires InList(w, Prepositions) && InList(art, Articles)
    ensures var p := |a| + |sep1|;
      PhraseMatch(a + sep1 + w + sep2 + art, p, p + |w|, p + |w| + |sep2|, strict)
  {
    var s := a + sep1 + w + sep2 + art;
    var p := |a| + |sep1|;
    var m := p + |w|;
    var e := m + |sep2|;
    ListsAreLetters();
    InListIsWord(w, Prepositions);
    InListIsWord(art, Articles);
    Slices(a, sep1, w, sep2, art);
    assert s[p - 1] == sep1[|sep1| - 1];
  }

  /** wrap.ts:26 and 33 as written: `\b` also matches after punctuation, so a listed word at
      the end of a longer token is split off it: `x-the` (a line of `x-the yy` at width 4) is
      cut into `x-` and `the`. The corrected rule leaves the token whole. */
  lemma AsWrittenSplitsToken(g: string, w: string)
    requires g != [] && NoSpace(g) && !IsWordChar(g[|g| - 1])
    requires InList(w, Singles)
    ensures Words(g + w) == [g + w]
    ensures OrphanSplitAsWritten(g + w) == Some(Split(g, w))
    ensures OrphanSplit(g + w) == None
  {
    ListsAreLetters();
    InListIsWord(w, Singles);
    assert NoSpace(g + w);
    WordsOfWord(g + w);
    TokenTails(g, w);
    TrimEndIdle(g);
    assert (g + w)[..|g|] == g;
  }

  /** Where the two searches find a tail in a token that ends in a listed word after
      punctuation: the search as written splits the token, the whole-token one finds
      nothing. */
  lemma TokenTails(g: string, w: string)
    requires g != [] && NoSpace(g) && !IsWordChar(g[|g| - 1])
    requires InList(w, Singles)
    ensures OrphanPhraseTail(g + w, false) == Some(Tail(|g|, w))
    ensures OrphanPhraseTail(g + w, true) == None
  {
    var s := g + w;
    ListsAreLetters();
    InListIsWord(w, Singles);
    assert NoSpace(s);
    assert TrimEnd(s) == s by {
      assert s[|s| - 1] == w[|w| - 1];
      TrimEndIdle(s);
    }
    assert WordStart(s, |s|) == 0 && s[0..] == s by {
      WordStartAt(s, |s|, 0);
    }
    assert s[|g| - 1] == g[|g| - 1];
    NotListedAt(s, |g| - 1, Articles);
    NotListedAt(s, |g| - 1, Singles);
    WordAtEndIsLast(s, Articles);
    WordAtEndIsLast(s, Singles);
    assert s[|g|..] == w;
    FindSingleComplete(s, |g|, false);
  }

  /** A string holding a character that is not a word character is not a listed word. */
  lemma NotListedAt(s: string, i: nat, list: seq<string>)
    requires i < |s| && !IsWordChar(s[i]) && AllLetters(list)
    ensures !InList(s, list)
  {
    if InList(s, list) {
      InListIsWord(s, list);
    }
  }
}
