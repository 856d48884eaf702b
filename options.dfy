/** Render options: `resolveOptions` of `src/render.js`, which fills in defaults and ties
    hyperlinks to colour, and the `strip` overrides of `src/index.ts` and `src/index.js`.
    An option the caller leaves `undefined` is `None`. */
module Options {
  import opened Text

  /** The options a caller may pass to `render`. The theme is kept by name only; its styles
      have no effect with colour off. */
  datatype UserOptions = UserOptions(
    wrap: Option<bool>,
    width: Option<int>,
    color: Option<bool>,
    hyperlinks: Option<bool>,
    theme: Option<string>,
    listIndent: Option<int>,
    quotePrefix: Option<string>,
    tableBorder: Option<string>,
    tablePadding: Option<int>,
    tableDense: Option<bool>,
    tableTruncate: Option<bool>,
    tableEllipsis: Option<string>,
    codeBox: Option<bool>,
    codeGutter: Option<bool>,
    codeWrap: Option<bool>)

  const NoOptions: UserOptions :=
    UserOptions(None, None, None, None, None, None, None, None, None, None, None, None, None, None, None)

  /** What `resolveOptions` reads from the process: `process.stdout.columns` (`None` or 0 when
      unknown), `process.stdout.isTTY` and `hyperlinkSupported()`. */
  datatype Terminal = Terminal(columns: Option<int>, isTTY: bool, linksSupported: bool)

  /** The resolved options every renderer reads. */
  datatype Options = Options(
    wrap: bool,
    width: Option<int>,
    color: bool,
    hyperlinks: bool,
    listIndent: int,
    quotePrefix: string,
    tableBorder: string,
    tablePadding: int,
    tableDense: bool,
    tableTruncate: bool,
    tableEllipsis: string,
    codeBox: bool,
    codeGutter: bool,
    codeWrap: bool)

  /** The defaults of the block-quote prefix, the cut-cell marker and the border name. */
  const QuotePrefix: string := "│ "
  const Ellipsis: string := "…"
  const UnicodeBorder: string := "unicode"

  /** `o ?? d`. */
  function Or<T>(o: Option<T>, d: T): T {
    if o.Some? then o.value else d
  }

  /** `process.stdout.columns || 80`. */
  function TerminalWidth(t: Terminal): int {
    if t.columns.Some? && t.columns.value != 0 then t.columns.value else 80
  }

  /** `userOptions.width ?? (wrap ? process.stdout.columns || 80 : undefined)`. */
  function BaseWidth(width: Option<int>, wrap: bool, t: Terminal): Option<int> {
    if width.Some? then width else if wrap then Some(TerminalWidth(t)) else None
  }

  /** `userOptions.tableBorder || "unicode"`: an absent or empty name means "unicode". */
  function BorderName(name: Option<string>): string {
    if name.Some? && name.value != "" then name.value else UnicodeBorder
  }

  /** `resolveOptions(userOptions)`, with what it reads from the process passed in as `t`. */
  function ResolveOptions(u: UserOptions, t: Terminal): (r: Options)
    // OSC hyperlinks require colour: with colour off they are off, whatever was asked
    ensures r.hyperlinks ==> r.color
    ensures !r.color ==> !r.hyperlinks
    // an option the caller gives is kept, except that an empty border name means "unicode";
    // one the caller leaves out takes its default, and so does a falsy border name
    ensures u.wrap.Some? ==> r.wrap == u.wrap.value
    ensures u.width.Some? ==> r.width == u.width
    ensures u.color.Some? ==> r.color == u.color.value
    ensures u.hyperlinks.Some? && r.color ==> r.hyperlinks == u.hyperlinks.value
    ensures r.listIndent == Or(u.listIndent, 2)
    ensures r.quotePrefix == Or(u.quotePrefix, QuotePrefix)
    ensures u.tableBorder.Some? && u.tableBorder.value != "" ==> r.tableBorder == u.tableBorder.value
    ensures r.tablePadding == Or(u.tablePadding, 1)
    ensures r.tableDense == Or(u.tableDense, false)
    ensures r.tableTruncate == Or(u.tableTruncate, false)
    ensures r.tableEllipsis == Or(u.tableEllipsis, Ellipsis)
    ensures r.codeBox == Or(u.codeBox, true)
    ensures r.codeGutter == Or(u.codeGutter, false)
    ensures r.codeWrap == Or(u.codeWrap, false)
    ensures u.wrap.None? ==> r.wrap
    ensures u.color.None? ==> r.color == t.isTTY
    ensures u.hyperlinks.None? ==> r.hyperlinks == (r.color && t.linksSupported)
    ensures u.tableBorder.None? || u.tableBorder.value == "" ==> r.tableBorder == UnicodeBorder
    // without a width, wrapping uses the terminal's, and no wrapping needs none
    ensures u.width.None? ==> (r.width.Some? <==> r.wrap)
    ensures u.width.None? && r.wrap ==> r.width == Some(TerminalWidth(t))
  {
    var wrap := Or(u.wrap, true);
    var color := Or(u.color, t.isTTY);
    var hyperlinks := Or(u.hyperlinks, color && t.linksSupported);
    Options(
      wrap := wrap,
      width := BaseWidth(u.width, wrap, t),
      color := color,
      hyperlinks := color && hyperlinks,
      listIndent := Or(u.listIndent, 2),
      quotePrefix := Or(u.quotePrefix, QuotePrefix),
      tableBorder := BorderName(u.tableBorder),
      tablePadding := Or(u.tablePadding, 1),
      tableDense := Or(u.tableDense, false),
      tableTruncate := Or(u.tableTruncate, false),
      tableEllipsis := Or(u.tableEllipsis, Ellipsis),
      codeBox := Or(u.codeBox, true),
      codeGutter := Or(u.codeGutter, false),
      codeWrap := Or(u.codeWrap, false))
  }

  /** The defaults: wrapping on at the terminal width (80 when unknown), colour when stdout is a
      terminal, two-space list indent, unicode table borders with padding 1, boxed code. */
  lemma Defaults(t: Terminal)
    ensures ResolveOptions(NoOptions, t) == Options(
      true, Some(TerminalWidth(t)), t.isTTY, t.isTTY && t.linksSupported,
      2, QuotePrefix, UnicodeBorder, 1, false, false, Ellipsis, true, false, false)
  {
  }

  /** `strip` of `src/index.ts`: colour and hyperlinks off, wrapping on unless the caller turned
      it off, every other option as given. */
  function StripTs(u: UserOptions): (r: UserOptions)
    ensures r.color == Some(false) && r.hyperlinks == Some(false)
    ensures r.wrap == Some(u.wrap.None? || u.wrap.value)
    ensures r.(wrap := u.wrap, color := u.color, hyperlinks := u.hyperlinks) == u
  {
    u.(color := Some(false), hyperlinks := Some(false), wrap := Some(Or(u.wrap, true)))
  }

  /** `strip` of `src/index.js`: colour and hyperlinks off, every other option (an absent
      `wrap` included) as given. */
  function StripJs(u: UserOptions): (r: UserOptions)
    ensures r.color == Some(false) && r.hyperlinks == Some(false)
    ensures r.(color := u.color, hyperlinks := u.hyperlinks) == u
  {
    u.(color := Some(false), hyperlinks := Some(false))
  }

  /** Once resolved, the two versions of `strip` ask for the same options, with colour and
      hyperlinks off whatever the caller passed. */
  lemma StripVersionsAgree(u: UserOptions, t: Terminal)
    ensures ResolveOptions(StripJs(u), t) == ResolveOptions(StripTs(u), t)
    ensures !ResolveOptions(StripTs(u), t).color && !ResolveOptions(StripTs(u), t).hyperlinks
  {
  }
}
