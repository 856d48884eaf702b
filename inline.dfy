/** Inline rendering of `src/render.js` with colour off, so that every style is the identity:
    `renderInline` concatenates the text of the nodes, and `renderLink` shows a link as an
    OSC 8 hyperlink or as its label followed by the url. */
module Inline {
  import opened Text
  import opened Hyperlink
  import Options

  /** The inline nodes of the syntax tree. `Other` is any other node, which contributes its
      `value` (the empty string when it has none). */
  datatype Inline =
    | Text(value: string)
    | Emphasis(children: seq<Inline>)
    | Strong(children: seq<Inline>)
    | Delete(children: seq<Inline>)
    | InlineCode(value: string)
    | Link(url: string, children: seq<Inline>)
    | Break
    | Other(value: string)

  /** `renderLink` once the label has been rendered: an empty label shows the url; with
      hyperlinks on and a url the label is wrapped in OSC 8; otherwise a url that differs from
      the label follows it in parentheses. */
  function RenderLink(url: string, rendered: string, hyperlinks: bool): (r: string)
    ensures var shown := if rendered == "" then url else rendered;
      && (hyperlinks && url != "" ==> r == Osc8(url, shown))
      && (hyperlinks && url != "" && BEL !in url ==> ParseOsc8(r) == Some((url, shown)))
      && (!(hyperlinks && url != "") ==> |shown| <= |r| && r[..|shown|] == shown)
      && (!(hyperlinks && url != "") && url != "" && shown != url ==> r[|shown|..] == " (" + url + ")")
      && (!(hyperlinks && url != "") && (url == "" || shown == url) ==> r == shown)
  {
    var shown := if rendered == "" then url else rendered;
    if hyperlinks && url != "" then
      (if BEL !in url then Osc8RoundTrip(url, shown); Osc8(url, shown) else Osc8(url, shown))
    else if url != "" && shown != url then shown + " (" + url + ")"
    else shown
  }

  /** What `renderInline` appends for one node. */
  function NodeText(n: Inline, hyperlinks: bool): string
    decreases n, 1
  {
    match n
    case Text(v) => v
    case Emphasis(c) => InlineText(c, hyperlinks)
    case Strong(c) => InlineText(c, hyperlinks)
    case Delete(c) => InlineText(c, hyperlinks)
    case InlineCode(v) => v
    case Link(url, c) => RenderLink(url, InlineText(c, hyperlinks), hyperlinks)
    case Break => "\n"
    case Other(v) => v
  }

  /** The text `renderInline` builds: the node texts, left to right. */
  function InlineText(nodes: seq<Inline>, hyperlinks: bool): string
    decreases nodes, 0
  {
    if nodes == [] then ""
    else InlineText(nodes[..|nodes| - 1], hyperlinks) + NodeText(nodes[|nodes| - 1], hyperlinks)
  }

  /** `renderInline(children, ctx)`: the `for` loop appending each node's text to `out`. */
  method RenderInline(nodes: seq<Inline>, hyperlinks: bool) returns (out: string)
    ensures out == InlineText(nodes, hyperlinks)
    decreases nodes
  {
    out := "";
    var i := 0;
    while i < |nodes|
      invariant i <= |nodes|
      invariant out == InlineText(nodes[..i], hyperlinks)
      decreases |nodes| - i
    {
      var node := nodes[i];
      assert nodes[..i + 1][..i] == nodes[..i];
      match node {
      case Text(v) =>
        out := out + v;
      case Emphasis(c) =>
        var inner := RenderInline(c, hyperlinks);
        out := out + inner;
      case Strong(c) =>
        var inner := RenderInline(c, hyperlinks);
        out := out + inner;
      case Delete(c) =>
        var inner := RenderInline(c, hyperlinks);
        out := out + inner;
      case InlineCode(v) =>
        out := out + v;
      case Link(url, c) =>
        var shown := RenderInline(c, hyperlinks);
        out := out + RenderLink(url, shown, hyperlinks);
      case Break =>
        out := out + "\n";
      case Other(v) =>
        out := out + v;
      }
      i := i + 1;
    }
    assert nodes[..i] == nodes;
  }

  /** No escape character anywhere in the text or the urls of the nodes. */
  predicate EscapeFree(nodes: seq<Inline>)
    decreases nodes, 0
  {
    forall i :: 0 <= i < |nodes| ==> NodeEscapeFree(nodes[i])
  }

  predicate NodeEscapeFree(n: Inline)
    decreases n, 1
  {
    match n
    case Text(v) => ESC !in v
    case Emphasis(c) => EscapeFree(c)
    case Strong(c) => EscapeFree(c)
    case Delete(c) => EscapeFree(c)
    case InlineCode(v) => ESC !in v
    case Link(url, c) => ESC !in url && EscapeFree(c)
    case Break => true
    case Other(v) => ESC !in v
  }

  /** With hyperlinks off, the renderer itself adds no escape character, so escape-free input
      gives escape-free output and no OSC 8 sequence can appear. */
  lemma {:induction false} NoEscapeWithoutLinks(nodes: seq<Inline>)
    requires EscapeFree(nodes)
    ensures ESC !in InlineText(nodes, false)
    decreases nodes, 0
  {
    if nodes != [] {
      var init := nodes[..|nodes| - 1];
      assert EscapeFree(init) by {
        forall i | 0 <= i < |init| ensures NodeEscapeFree(init[i]) {
          assert init[i] == nodes[i];
        }
      }
      NoEscapeWithoutLinks(init);
      NodeNoEscape(nodes[|nodes| - 1]);
    }
  }

  lemma {:induction false} NodeNoEscape(n: Inline)
    requires NodeEscapeFree(n)
    ensures ESC !in NodeText(n, false)
    decreases n, 1
  {
    match n
    case Emphasis(c) => NoEscapeWithoutLinks(c);
    case Strong(c) => NoEscapeWithoutLinks(c);
    case Delete(c) => NoEscapeWithoutLinks(c);
    case Link(url, c) =>
      NoEscapeWithoutLinks(c);
      var shown := InlineText(c, false);
      assert ESC !in " (" + url + ")";
    case Text(_) =>
    case InlineCode(_) =>
    case Break =>
    case Other(_) =>
  }

  /** `strip` never emits an OSC 8 hyperlink: the options it asks for resolve to hyperlinks
      off, so escape-free inline text stays escape-free. */
  lemma StripHasNoHyperlinks(u: Options.UserOptions, t: Options.Terminal, nodes: seq<Inline>)
    requires EscapeFree(nodes)
    ensures var o := Options.ResolveOptions(Options.StripTs(u), t);
      ESC !in InlineText(nodes, o.hyperlinks)
  {
    Options.StripVersionsAgree(u, t);
    NoEscapeWithoutLinks(nodes);
  }
}
