/** Table cells of `src/render.js`: `padCell` widens a cell to its column by alignment, and
    `truncateCell` cuts an over-long cell and marks the cut with an ellipsis. Widths are
    lengths, as for every escape-free single-column string here. */
module Cells {
  import opened Text

  /** A column's alignment; `AlignNone` is a column the table gives no alignment (`null`, or
      missing from `node.align`), which pads like a left-aligned one. */
  datatype Align = AlignLeft | AlignRight | AlignCenter | AlignNone

  /** `aligns[idx]`, or no alignment past its end. */
  function AlignAt(aligns: seq<Align>, idx: nat): Align {
    if idx < |aligns| then aligns[idx] else AlignNone
  }

  /** `padCell(text, width, align)`. */
  function PadCell(text: string, width: int, align: Align): (r: string)
    // a cell at least as wide as the column is left alone
    ensures |text| >= width ==> r == text
    // a narrower one is widened to exactly the column's width, with spaces only
    ensures |text| < width ==> |r| == width
    ensures |text| < width && align == AlignRight ==>
      r[width - |text|..] == text && Blank(r[..width - |text|])
    ensures |text| < width && align == AlignCenter ==>
      var left := (width - |text|) / 2;
      r[left..left + |text|] == text && Blank(r[..left]) && Blank(r[left + |text|..])
    ensures |text| < width && (align == AlignLeft || align == AlignNone) ==>
      r[..|text|] == text && Blank(r[|text|..])
  {
    var pad := width - |text|;
    if pad <= 0 then text
    else if align == AlignRight then
      SpacesAreSpace(pad);
      Spaces(pad) + text
    else if align == AlignCenter then
      var left := pad / 2;
      SpacesAreSpace(left);
      SpacesAreSpace(pad - left);
      Centered(Spaces(left), text, Spaces(pad - left))
    else
      SpacesAreSpace(pad);
      text + Spaces(pad)
  }

  /** `text` between two runs of spaces. */
  function Centered(left: string, text: string, right: string): (r: string)
    ensures |r| == |left| + |text| + |right|
    ensures r[..|left|] == left && r[|left|..|left| + |text|] == text && r[|left| + |text|..] == right
  {
    var r := left + text + right;
    assert r == left + (text + right);
    r
  }

  /** Padding a cell adds no word. */
  lemma PadCellWords(text: string, width: int, align: Align)
    ensures Words(PadCell(text, width, align)) == Words(text)
  {
    var pad := width - |text|;
    if pad > 0 {
      if align == AlignRight {
        SpacesAreSpace(pad);
        WordsSpacedFront(Spaces(pad), text);
      } else if align == AlignCenter {
        var left := pad / 2;
        SpacesAreSpace(left);
        SpacesAreSpace(pad - left);
        WordsSpacedFront(Spaces(left), text);
        WordsSpacedBack(Spaces(left) + text, Spaces(pad - left));
      } else {
        SpacesAreSpace(pad);
        WordsSpacedBack(text, Spaces(pad));
      }
    }
  }

  lemma WordsSpacedFront(sp: string, text: string)
    requires AllSpace(sp)
    ensures Words(sp + text) == Words(text)
  {
    WordsOfSpace(sp);
    if sp == [] {
      assert sp + text == text;
    } else {
      WordsAppend(sp, text);
    }
  }

  lemma WordsSpacedBack(text: string, sp: string)
    requires AllSpace(sp)
    ensures Words(text + sp) == Words(text)
  {
    WordsOfSpace(sp);
    if sp == [] {
      assert text + sp == text;
    } else {
      WordsAppend(text, sp);
    }
  }

  /** `truncateCell(text, width, ellipsis)`. The width may be negative (a column narrower
      than its padding), and `slice` then counts from the end of the ellipsis. */
  function TruncateCell(text: string, width: int, ellipsis: string): (r: string)
    // a cell that fits is left alone
    ensures |text| <= width ==> r == text
    // a column too narrow for the ellipsis shows as much of the ellipsis as `slice` keeps
    ensures |text| > width && width <= |ellipsis| ==> r == SlicePrefix(ellipsis, width)
    // otherwise the cell is cut to the width, ending in the whole ellipsis
    ensures |text| > width > |ellipsis| ==>
      |r| == width && r[..width - |ellipsis|] == text[..width - |ellipsis|]
      && r[width - |ellipsis|..] == ellipsis
    // with a width that is not negative, a cut cell is never wider than the column asks; a
    // negative width can leave part of the ellipsis, wider than that
    ensures width >= 0 ==> r == text || |r| <= width
  {
    if |text| <= width then text
    else if width <= |ellipsis| then SlicePrefix(ellipsis, width)
    else text[..width - |ellipsis|] + ellipsis
  }
}
