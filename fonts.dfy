/**
 * One font of the cascade (`cairo::font`): the coverage query `match` and the
 * shape-and-draw step `render`.
 *
 * FreeType and cairo are not part of this model. What the font layer asks of
 * them is carried by three functions fixed when the font is built:
 * `charIndex` stands for `FT_Get_Char_Index` on the font's face,
 * `textToGlyphs` for `cairo_scaled_font_text_to_glyphs` (glyph `g` paired
 * with cluster `g`, as `render` reads them), and `advance` for the pen
 * advance after a run is shown. The drawing surface is a Canvas: the pen's
 * x position and the runs shown so far.
 */
module Fonts {
  import opened Ints
  import opened Utf8

  /** Entry `g` of a shaping result: `glyphs[g].index` and `clusters[g].num_bytes`. */
  datatype Glyph = Glyph(index: nat, numBytes: nat)

  /** A run of text shown with `cairo_show_text_glyphs`: by which font, which
      bytes, starting at which pen x. */
  datatype Run = Run(font: Font, bytes: seq<byte>, x: int)

  /** The part of the cairo context the text path uses. */
  class Canvas {
    var x: int
    var shown: seq<Run>

    constructor (x: int)
      ensures this.x == x && shown == []
    {
      this.x := x;
      shown := [];
    }
  }

  class Font {
    const charIndex: nat -> nat
    const textToGlyphs: seq<byte> -> seq<Glyph>
    const advance: seq<byte> -> nat
    const offset: int

    constructor (charIndex: nat -> nat, textToGlyphs: seq<byte> -> seq<Glyph>, advance: seq<byte> -> nat, offset: int)
      ensures this.charIndex == charIndex && this.textToGlyphs == textToGlyphs
      ensures this.advance == advance && this.offset == offset
    {
      this.charIndex := charIndex;
      this.textToGlyphs := textToGlyphs;
      this.advance := advance;
      this.offset := offset;
    }

    /** `font::match`: counts leading characters that have a glyph in this font. */
    method Match(charlist: seq<UnicodeChar>) returns (availableChars: nat)
      ensures availableChars == MatchCount(this, charlist)
    {
      availableChars := 0;
      var i := 0;
      while i < |charlist|
        invariant 0 <= i <= |charlist| && availableChars == i
        invariant forall j :: 0 <= j < i ==> charIndex(charlist[j].codepoint) != 0
      {
        if charIndex(charlist[i].codepoint) != 0 {
          availableChars := availableChars + 1;
        } else {
          break;
        }
        i := i + 1;
      }
      MatchCountUnique(this, charlist, availableChars);
    }

    /** `font::render`: shapes all of `text`, counts the bytes of the leading glyphs
        that exist, and shows those bytes at the pen when there are any. */
    method Render(text: seq<byte>, c: Canvas) returns (bytes: nat)
      modifies c
      ensures bytes == ShapedBytes(textToGlyphs(text))
      ensures bytes == 0 ==> c.x == old(c.x) && c.shown == old(c.shown)
      ensures bytes > 0 ==>
        var run := text[..Min(bytes, |text|)];
        c.shown == old(c.shown) + [Run(this, run, old(c.x))] && c.x == old(c.x) + advance(run)
    {
      var glyphs := textToGlyphs(text);
      bytes := 0;
      var g := 0;
      while g < |glyphs|
        invariant 0 <= g <= |glyphs|
        invariant forall j :: 0 <= j < g ==> glyphs[j].index != 0
        invariant bytes == SumBytes(glyphs[..g])
        invariant c.x == old(c.x) && c.shown == old(c.shown)
      {
        if glyphs[g].index != 0 {
          assert glyphs[..g + 1] == glyphs[..g] + [glyphs[g]];
          SumBytesAppend(glyphs[..g], [glyphs[g]]);
          bytes := bytes + glyphs[g].numBytes;
        } else {
          break;
        }
        g := g + 1;
      }
      GlyphRunUnique(glyphs, g);
      if bytes > 0 {
        var utf8 := text[..Min(bytes, |text|)];
        c.shown := c.shown + [Run(this, utf8, c.x)];
        c.x := c.x + advance(utf8);
      }
    }
  }

  /** What `match` returns: the length of the longest prefix of `cs` whose
      characters all have a nonzero glyph index in `f`. */
  function MatchCount(f: Font, cs: seq<UnicodeChar>): (n: nat)
    ensures n <= |cs|
    ensures forall i :: 0 <= i < n ==> f.charIndex(cs[i].codepoint) != 0
    ensures n < |cs| ==> f.charIndex(cs[n].codepoint) == 0
    decreases |cs|
  {
    if cs == [] || f.charIndex(cs[0].codepoint) == 0 then 0 else 1 + MatchCount(f, cs[1..])
  }

  /** The three properties of MatchCount pin it down. */
  lemma MatchCountUnique(f: Font, cs: seq<UnicodeChar>, n: nat)
    requires n <= |cs|
    requires forall i :: 0 <= i < n ==> f.charIndex(cs[i].codepoint) != 0
    requires n < |cs| ==> f.charIndex(cs[n].codepoint) == 0
    ensures n == MatchCount(f, cs)
  {
  }

  /** The number of leading glyphs with a nonzero index. */
  function GlyphRun(gs: seq<Glyph>): (n: nat)
    ensures n <= |gs|
    ensures forall i :: 0 <= i < n ==> gs[i].index != 0
    ensures n < |gs| ==> gs[n].index == 0
    decreases |gs|
  {
    if gs == [] || gs[0].index == 0 then 0 else 1 + GlyphRun(gs[1..])
  }

  function SumBytes(gs: seq<Glyph>): nat
    decreases |gs|
  {
    if gs == [] then 0 else gs[0].numBytes + SumBytes(gs[1..])
  }

  lemma {:induction false} SumBytesAppend(a: seq<Glyph>, b: seq<Glyph>)
    ensures SumBytes(a + b) == SumBytes(a) + SumBytes(b)
    decreases |a|
  {
    if a != [] {
      assert (a + b)[1..] == a[1..] + b;
      SumBytesAppend(a[1..], b);
    } else {
      assert a + b == b;
    }
  }

  /** What `render` counts: the cluster bytes of the leading run of glyphs that exist. */
  function ShapedBytes(gs: seq<Glyph>): nat
  {
    SumBytes(gs[..GlyphRun(gs)])
  }

  /** The three properties of GlyphRun pin it down. */
  lemma GlyphRunUnique(gs: seq<Glyph>, n: nat)
    requires n <= |gs|
    requires forall i :: 0 <= i < n ==> gs[i].index != 0
    requires n < |gs| ==> gs[n].index == 0
    ensures n == GlyphRun(gs)
  {
  }

  /** A shaping result whose first glyph does not exist draws nothing. */
  lemma ShapedBytesFirstMissing(gs: seq<Glyph>)
    requires gs != [] && gs[0].index == 0
    ensures ShapedBytes(gs) == 0
  {
  }
}
