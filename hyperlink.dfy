/** `osc8(url, text)` of `src/hyperlink.ts` and `src/hyperlink.js`: an OSC 8 hyperlink, the
    de-facto terminal convention carried in an ECMA-48 operating system command (`ESC ]`
    ... `BEL`). The link is opened with the url and closed with an empty one. */
module Hyperlink {
  import opened Text

  const ESC: char := '\U{1B}'
  const BEL: char := '\U{7}'

  /** `ESC ]8;;`: the OSC 8 introducer with empty parameters, before the url. */
  const Intro: string := [ESC] + "]8;;"

  /** `ESC ]8;; BEL`: the OSC 8 sequence with an empty url, which ends the link. */
  const Closer: string := Intro + [BEL]

  function Osc8(url: string, text: string): (r: string)
    // twelve characters of framing around the url and the text
    ensures |r| == |url| + |text| + 12
  {
    Intro + url + [BEL] + text + Closer
  }

  /** The url is only in the opening sequence, the text follows its BEL verbatim, and the
      closing sequence carries an empty url. */
  lemma Osc8Layout(url: string, text: string)
    ensures var r := Osc8(url, text);
      && r[..|Intro| + |url| + 1] == Intro + url + [BEL]
      && r[|Intro| + |url| + 1..|r| - |Closer|] == text
      && r[|r| - |Closer|..] == Closer
  {
    var r := Osc8(url, text);
    var head := Intro + url + [BEL];
    assert r == head + text + Closer;
    assert r[..|head|] == head;
    assert r[|head|..|r| - |Closer|] == text;
  }

  /** Reads a hyperlink back: the url runs from the introducer to the first BEL, the text
      from there to the closing sequence. */
  function ParseOsc8(s: string): (r: Option<(string, string)>)
    ensures r.Some? ==> BEL !in r.value.0
  {
    match Unframe(s, Intro, Closer)
    case None => None
    case Some(body) => CutAtFirst(body, BEL)
  }

  /** What `s` holds between `front` and `back`, when it starts and ends with them. */
  function Unframe(s: string, front: string, back: string): (r: Option<string>)
    ensures r.Some? ==> s == front + r.value + back
  {
    if |s| < |front| + |back| || s[..|front|] != front || s[|s| - |back|..] != back then None
    else
      var body := s[|front|..|s| - |back|];
      ThreeParts(s, |front|, |s| - |back|);
      Some(body)
  }

  /** `s` cut at its first `c`: the part before it and the part after it. */
  function CutAtFirst(s: string, c: char): (r: Option<(string, string)>)
    ensures r.None? <==> c !in s
    ensures r.Some? ==> c !in r.value.0 && s == r.value.0 + [c] + r.value.1
  {
    var k := IndexOf(s, c);
    if k == -1 then None
    else
      Around(s, k);
      Some((s[..k], s[k + 1..]))
  }

  lemma Around(s: string, k: nat)
    requires k < |s|
    ensures s == s[..k] + [s[k]] + s[k + 1..]
  {
    assert s[k..k + 1] == [s[k]];
    ThreeParts(s, k, k + 1);
  }

  /** A url without BEL and any text are read back from the hyperlink. */
  lemma Osc8RoundTrip(url: string, text: string)
    requires BEL !in url
    ensures ParseOsc8(Osc8(url, text)) == Some((url, text))
  {
    Osc8Shape(url, text);
    UnframeFramed(Intro, url + [BEL] + text, Closer);
    CutAtFirstOf(url, BEL, text);
  }

  /** Whatever reads back as a hyperlink is exactly that hyperlink. */
  lemma ParseOsc8Sound(s: string)
    requires ParseOsc8(s).Some?
    ensures Osc8(ParseOsc8(s).value.0, ParseOsc8(s).value.1) == s
  {
    var r := ParseOsc8(s).value;
    Osc8Shape(r.0, r.1);
  }

  lemma UnframeFramed(front: string, body: string, back: string)
    ensures Unframe(front + body + back, front, back) == Some(body)
  {
    var s := front + body + back;
    assert s[..|front|] == front && s[|s| - |back|..] == back && s[|front|..|s| - |back|] == body;
  }

  lemma CutAtFirstOf(u: string, c: char, t: string)
    requires c !in u
    ensures CutAtFirst(u + [c] + t, c) == Some((u, t))
  {
    var s := u + [c] + t;
    assert s[..|u|] == u;
    IndexOfFirst(s, c, |u|);
    assert s[|u| + 1..] == t;
  }

  lemma Osc8Shape(url: string, text: string)
    ensures Osc8(url, text) == Intro + (url + [BEL] + text) + Closer
  {
    AppendAssoc(Intro + url + [BEL], text, Closer);
  }

  lemma ThreeParts(s: string, i: nat, j: nat)
    requires i <= j <= |s|
    ensures s == s[..i] + s[i..j] + s[j..]
  {
  }

  /** Two hyperlinks are equal only when their urls and texts are, for urls without BEL. */
  lemma Osc8Injective(u1: string, t1: string, u2: string, t2: string)
    requires BEL !in u1 && BEL !in u2
    requires Osc8(u1, t1) == Osc8(u2, t2)
    ensures u1 == u2 && t1 == t2
  {
    Osc8RoundTrip(u1, t1);
    Osc8RoundTrip(u2, t2);
  }

  /** `IndexOf` finds `c` at `k` when it is there and nowhere before. */
  lemma {:induction false} IndexOfFirst(s: string, c: char, k: nat)
    requires k < |s| && s[k] == c && c !in s[..k]
    ensures IndexOf(s, c) == k
  {
    if k > 0 {
      assert s[0] == s[..k][0];
      assert s[1..][..k - 1] == s[..k][1..];
      IndexOfFirst(s[1..], c, k - 1);
    }
  }
}
