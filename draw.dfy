/**
 * Phase B of drawing a text block (`cairo::context::operator<<(const textblock&)`):
 * the text left by Phase A is handed to the fonts, pass after pass. Within a
 * pass every font, in list order, starts at the pen position the pass has
 * reached and draws the prefix of the remaining text it can shape; the pass
 * goes on with the next font on what is left. Passes repeat until the text
 * is used up or a whole pass draws nothing, in which case the rest is dropped.
 *
 * Only the pen's x coordinate is kept; the pen's y and the baseline shift
 * applied by each font are not part of this model.
 */
module CairoDraw {
  import opened Ints
  import opened Fonts

  /** What one pass does: the runs it draws, where it leaves the pen, the text left. */
  datatype Pass = Pass(runs: seq<Run>, x: int, rest: seq<byte>)

  /** What Phase B does: the runs it draws, where it leaves the pen, the text it drops. */
  datatype Drawing = Drawing(runs: seq<Run>, x: int, dropped: seq<byte>)

  /** The bytes of the runs, in drawing order. */
  function Flatten(runs: seq<Run>): seq<byte>
    decreases |runs|
  {
    if runs == [] then [] else runs[0].bytes + Flatten(runs[1..])
  }

  /** The bytes font `f` takes from the front of `text` when it is rendered there. */
  function Taken(f: Font, text: seq<byte>): nat
  {
    Min(ShapedBytes(f.textToGlyphs(text)), |text|)
  }

  /** One pass over the fonts `fns`, from pen position `x`. */
  function PassFrom(fns: seq<Font>, text: seq<byte>, x: int): (p: Pass)
    ensures |p.rest| <= |text|
    ensures |p.rest| == |text| ==> p.runs == [] && p.x == x && p.rest == text
    decreases |fns|
  {
    if fns == [] || text == [] then Pass([], x, text)
    else if ShapedBytes(fns[0].textToGlyphs(text)) == 0 then PassFrom(fns[1..], text, x)
    else
      var run := text[..Taken(fns[0], text)];
      var p := PassFrom(fns[1..], text[Taken(fns[0], text)..], x + fns[0].advance(run));
      Pass([Run(fns[0], run, x)] + p.runs, p.x, p.rest)
  }

  /** Passes until the text is used up or a pass draws nothing. */
  function Draw(fns: seq<Font>, text: seq<byte>, x: int): (d: Drawing)
    decreases |text|
  {
    if text == [] then Drawing([], x, [])
    else
      var p := PassFrom(fns, text, x);
      if |p.rest| == |text| then Drawing([], x, text)
      else
        var d := Draw(fns, p.rest, p.x);
        Drawing(p.runs + d.runs, d.x, d.dropped)
  }

  /** The runs start where the pen stands and each starts where the previous one
      left the pen; the last leaves it at `x1`. */
  predicate Chain(runs: seq<Run>, x0: int, x1: int)
    decreases |runs|
  {
    if runs == [] then x0 == x1
    else runs[0].x == x0 && Chain(runs[1..], x0 + runs[0].font.advance(runs[0].bytes), x1)
  }

  /** Every run is drawn by one of the fonts and holds at least one byte. */
  predicate DrawnBy(runs: seq<Run>, fns: seq<Font>)
  {
    forall i :: 0 <= i < |runs| ==> runs[i].bytes != [] && runs[i].font in fns
  }

  /** No font shapes a single leading byte of `text`. */
  predicate NoneShapes(fns: seq<Font>, text: seq<byte>)
  {
    forall i :: 0 <= i < |fns| ==> ShapedBytes(fns[i].textToGlyphs(text)) == 0
  }

  // ---------------------------------------------------------------------------
  // Phase B, as the source runs it
  // ---------------------------------------------------------------------------

  /** The outer loop of Phase B. The pen starts at the canvas's current x;
      the text a pass could not shift is returned (and logged by the caller). */
  method DrawRuns(fns: seq<Font>, text0: seq<byte>, c: Canvas) returns (dropped: seq<byte>)
    modifies c
    ensures c.shown == old(c.shown) + Draw(fns, text0, old(c.x)).runs
    ensures c.x == Draw(fns, text0, old(c.x)).x
    ensures dropped == Draw(fns, text0, old(c.x)).dropped
  {
    var text := text0;
    var baseX := c.x;
    dropped := [];
    ghost var shown0 := c.shown;
    ghost var drawn: seq<Run> := [];
    while text != []
      invariant c.x == baseX && c.shown == shown0 + drawn && dropped == []
      invariant Draw(fns, text0, old(c.x)) == Append(drawn, Draw(fns, text, baseX))
      decreases |text|
    {
      var remaining := |text|;
      ghost var before, x := text, baseX;
      text, baseX := DrawPass(fns, text, baseX, c);
      if remaining == |text| {
        dropped := text;
        DrawStuck(fns, text0, old(c.x), drawn, before, x, text, baseX);
        break;
      }
      DrawAfterPass(fns, text0, old(c.x), drawn, before, x, text, baseX);
      drawn := drawn + PassFrom(fns, before, x).runs;
    }
  }

  /** `d` drawn after the runs `runs`. */
  function Append(runs: seq<Run>, d: Drawing): Drawing
  {
    Drawing(runs + d.runs, d.x, d.dropped)
  }

  /** A pass that drew something is followed by the passes on what it left. */
  lemma DrawAfterPass(fns: seq<Font>, text0: seq<byte>, x0: int, drawn: seq<Run>,
                      text: seq<byte>, x: int, rest: seq<byte>, x': int)
    requires text != [] && PassFrom(fns, text, x).rest == rest && PassFrom(fns, text, x).x == x'
    requires |rest| != |text|
    requires Draw(fns, text0, x0) == Append(drawn, Draw(fns, text, x))
    ensures Draw(fns, text0, x0) == Append(drawn + PassFrom(fns, text, x).runs, Draw(fns, rest, x'))
  {
    var runs := PassFrom(fns, text, x).runs;
    assert drawn + (runs + Draw(fns, rest, x').runs) == (drawn + runs) + Draw(fns, rest, x').runs;
  }

  /** A pass that drew nothing ends Phase B, dropping the whole text. */
  lemma DrawStuck(fns: seq<Font>, text0: seq<byte>, x0: int, drawn: seq<Run>,
                  text: seq<byte>, x: int, rest: seq<byte>, x': int)
    requires text != [] && PassFrom(fns, text, x).rest == rest && PassFrom(fns, text, x).x == x'
    requires |rest| == |text|
    requires Draw(fns, text0, x0) == Append(drawn, Draw(fns, text, x))
    ensures Draw(fns, text0, x0) == Drawing(drawn, x', rest)
  {
    assert drawn + [] == drawn;
  }

  /** One pass of Phase B: for each font in turn the pen goes back to `baseX`
      (`cairo_move_to`), the font renders the text, and a font that drew
      something takes its bytes off the front and moves `baseX` to the pen. */
  method DrawPass(fns: seq<Font>, text0: seq<byte>, baseX0: int, c: Canvas)
    returns (text: seq<byte>, baseX: int)
    requires text0 != [] && c.x == baseX0
    modifies c
    ensures text == PassFrom(fns, text0, baseX0).rest && baseX == PassFrom(fns, text0, baseX0).x
    ensures c.shown == old(c.shown) + PassFrom(fns, text0, baseX0).runs && c.x == baseX
  {
    text, baseX := text0, baseX0;
    ghost var drawn: seq<Run> := [];
    var i := 0;
    while i < |fns|
      invariant 0 <= i <= |fns| && text != []
      invariant c.x == baseX && c.shown == old(c.shown) + drawn
      invariant PassFrom(fns, text0, baseX0) == Then(drawn, PassFrom(fns[i..], text, baseX))
    {
      c.x := baseX;
      var bytes := fns[i].Render(text, c);
      if bytes != 0 {
        var k := Min(bytes, |text|);
        ghost var run := text[..k];
        PassTake(fns, i, text, baseX, text0, baseX0, drawn, k, run, text[k..], c.x);
        drawn := drawn + [Run(fns[i], run, baseX)];
        text := text[k..];
        baseX := c.x;
        if text == [] {
          break;
        }
      } else {
        PassSkip(fns, i, text, baseX, text0, baseX0, drawn);
      }
      i := i + 1;
    }
  }

  /** `p` drawn after the runs `runs`. */
  function Then(runs: seq<Run>, p: Pass): Pass
  {
    Pass(runs + p.runs, p.x, p.rest)
  }

  /** A font that draws takes its run and hands the rest to the next font. */
  lemma PassTake(fns: seq<Font>, i: nat, text: seq<byte>, x: int, text0: seq<byte>, x0: int,
                 drawn: seq<Run>, k: nat, run: seq<byte>, rest: seq<byte>, x': int)
    requires i < |fns| && text != [] && ShapedBytes(fns[i].textToGlyphs(text)) != 0
    requires PassFrom(fns, text0, x0) == Then(drawn, PassFrom(fns[i..], text, x))
    requires k == Taken(fns[i], text) && run == text[..k] && rest == text[k..]
    requires x' == x + fns[i].advance(run)
    ensures PassFrom(fns, text0, x0) == Then(drawn + [Run(fns[i], run, x)], PassFrom(fns[i + 1..], rest, x'))
    ensures rest == [] ==> PassFrom(fns, text0, x0) == Then(drawn + [Run(fns[i], run, x)], Pass([], x', []))
  {
    assert fns[i..][0] == fns[i] && fns[i..][1..] == fns[i + 1..];
  }

  /** A font that draws nothing hands the text on unchanged. */
  lemma PassSkip(fns: seq<Font>, i: nat, text: seq<byte>, x: int, text0: seq<byte>, x0: int, drawn: seq<Run>)
    requires i < |fns| && text != [] && ShapedBytes(fns[i].textToGlyphs(text)) == 0
    requires PassFrom(fns, text0, x0) == Then(drawn, PassFrom(fns[i..], text, x))
    ensures PassFrom(fns, text0, x0) == Then(drawn, PassFrom(fns[i + 1..], text, x))
  {
    assert fns[i..][0] == fns[i] && fns[i..][1..] == fns[i + 1..];
  }

  // ---------------------------------------------------------------------------
  // What Phase B guarantees
  // ---------------------------------------------------------------------------

  lemma {:induction false} FlattenAppend(a: seq<Run>, b: seq<Run>)
    ensures Flatten(a + b) == Flatten(a) + Flatten(b)
    decreases |a|
  {
    if a == [] {
      assert a + b == b;
    } else {
      assert (a + b)[1..] == a[1..] + b;
      FlattenAppend(a[1..], b);
    }
  }

  lemma {:induction false} ChainAppend(a: seq<Run>, b: seq<Run>, x0: int, x1: int, x2: int)
    requires Chain(a, x0, x1) && Chain(b, x1, x2)
    ensures Chain(a + b, x0, x2)
    decreases |a|
  {
    if a == [] {
      assert a + b == b;
    } else {
      assert (a + b)[1..] == a[1..] + b;
      ChainAppend(a[1..], b, x0 + a[0].font.advance(a[0].bytes), x1, x2);
    }
  }

  /** Fonts only move the pen forward. */
  lemma {:induction false} ChainForward(runs: seq<Run>, x0: int, x1: int)
    requires Chain(runs, x0, x1)
    ensures x0 <= x1
    decreases |runs|
  {
    if runs != [] {
      ChainForward(runs[1..], x0 + runs[0].font.advance(runs[0].bytes), x1);
    }
  }

  /** A pass neither loses nor repeats a byte: its runs, then the text it
      leaves, are the text it was given. */
  lemma {:induction false} PassFlatten(fns: seq<Font>, text: seq<byte>, x: int)
    ensures Flatten(PassFrom(fns, text, x).runs) + PassFrom(fns, text, x).rest == text
    decreases |fns|
  {
    if fns == [] || text == [] {
    } else if ShapedBytes(fns[0].textToGlyphs(text)) == 0 {
      PassFlatten(fns[1..], text, x);
    } else {
      var k := Taken(fns[0], text);
      var x' := x + fns[0].advance(text[..k]);
      PassFlatten(fns[1..], text[k..], x');
      PassUnfold(fns, text, x, k, x', PassFrom(fns[1..], text[k..], x'));
    }
  }

  /** The runs of a pass are drawn one after the other from `x`, each by one of
      the fonts. */
  lemma {:induction false} PassChain(fns: seq<Font>, text: seq<byte>, x: int)
    ensures Chain(PassFrom(fns, text, x).runs, x, PassFrom(fns, text, x).x)
    ensures DrawnBy(PassFrom(fns, text, x).runs, fns)
    decreases |fns|
  {
    if fns == [] || text == [] {
    } else if ShapedBytes(fns[0].textToGlyphs(text)) == 0 {
      PassChain(fns[1..], text, x);
      DrawnByWider(PassFrom(fns, text, x).runs, fns);
    } else {
      var k := Taken(fns[0], text);
      var x' := x + fns[0].advance(text[..k]);
      var p := PassFrom(fns[1..], text[k..], x');
      PassChain(fns[1..], text[k..], x');
      PassUnfold(fns, text, x, k, x', p);
      DrawnByWider(p.runs, fns);
      DrawnByCons(Run(fns[0], text[..k], x), p.runs, fns);
    }
  }

  /** The pass of a font that draws, written out. */
  lemma PassUnfold(fns: seq<Font>, text: seq<byte>, x: int, k: nat, x': int, p: Pass)
    requires fns != [] && text != [] && ShapedBytes(fns[0].textToGlyphs(text)) != 0
    requires k == Taken(fns[0], text) && x' == x + fns[0].advance(text[..k])
    requires p == PassFrom(fns[1..], text[k..], x')
    ensures 1 <= k <= |text|
    ensures PassFrom(fns, text, x) == Pass([Run(fns[0], text[..k], x)] + p.runs, p.x, p.rest)
    ensures Flatten([Run(fns[0], text[..k], x)] + p.runs) == text[..k] + Flatten(p.runs)
    ensures text == text[..k] + text[k..]
  {
    assert ([Run(fns[0], text[..k], x)] + p.runs)[1..] == p.runs;
  }

  /** Runs drawn by the fonts after the first are drawn by the fonts. */
  lemma DrawnByWider(runs: seq<Run>, fns: seq<Font>)
    requires fns != [] && DrawnBy(runs, fns[1..])
    ensures DrawnBy(runs, fns)
  {
    forall i | 0 <= i < |runs|
      ensures runs[i].font in fns
    {
      assert runs[i].font in fns[1..];
    }
  }

  lemma DrawnByCons(r: Run, runs: seq<Run>, fns: seq<Font>)
    requires r.bytes != [] && r.font in fns && DrawnBy(runs, fns)
    ensures DrawnBy([r] + runs, fns)
  {
    forall i | 0 < i < |[r] + runs|
      ensures ([r] + runs)[i].bytes != [] && ([r] + runs)[i].font in fns
    {
      assert ([r] + runs)[i] == runs[i - 1];
    }
  }

  /** A pass over a non-empty text leaves it whole exactly when no font shapes
      its first bytes. */
  lemma {:induction false} PassStuck(fns: seq<Font>, text: seq<byte>, x: int)
    requires text != []
    ensures |PassFrom(fns, text, x).rest| == |text| <==> NoneShapes(fns, text)
    decreases |fns|
  {
    if fns != [] {
      if ShapedBytes(fns[0].textToGlyphs(text)) == 0 {
        PassStuck(fns[1..], text, x);
        if NoneShapes(fns[1..], text) {
          forall i | 0 <= i < |fns|
            ensures ShapedBytes(fns[i].textToGlyphs(text)) == 0
          {
            if i > 0 {
              assert fns[i] == fns[1..][i - 1];
            }
          }
        }
      } else {
        assert !NoneShapes(fns, text) by {
          assert ShapedBytes(fns[0].textToGlyphs(text)) != 0;
        }
      }
    }
  }

  /** Phase B neither loses nor repeats a byte: the runs it draws, then the
      text it drops, are the text it was given. */
  lemma {:induction false} DrawFlatten(fns: seq<Font>, text: seq<byte>, x: int)
    ensures Flatten(Draw(fns, text, x).runs) + Draw(fns, text, x).dropped == text
    decreases |text|
  {
    if text != [] {
      var p := PassFrom(fns, text, x);
      if |p.rest| != |text| {
        var d := Draw(fns, p.rest, p.x);
        PassFlatten(fns, text, x);
        DrawFlatten(fns, p.rest, p.x);
        DrawUnfold(fns, text, x, p, d);
        FlattenJoin(p.runs, d.runs, p.rest, d.dropped, text);
      }
    }
  }

  lemma FlattenJoin(a: seq<Run>, b: seq<Run>, rest: seq<byte>, dropped: seq<byte>, text: seq<byte>)
    requires Flatten(a) + rest == text && Flatten(b) + dropped == rest
    ensures Flatten(a + b) + dropped == text
  {
    FlattenAppend(a, b);
    assert Flatten(a + b) + dropped == Flatten(a) + (Flatten(b) + dropped);
  }

  /** The runs of Phase B are drawn one after the other from the starting pen
      position, each by one of the fonts, and the pen only moves forward. */
  lemma {:induction false} DrawChain(fns: seq<Font>, text: seq<byte>, x: int)
    ensures Chain(Draw(fns, text, x).runs, x, Draw(fns, text, x).x)
    ensures DrawnBy(Draw(fns, text, x).runs, fns)
    ensures x <= Draw(fns, text, x).x
    decreases |text|
  {
    if text != [] {
      var p := PassFrom(fns, text, x);
      if |p.rest| != |text| {
        var d := Draw(fns, p.rest, p.x);
        PassChain(fns, text, x);
        DrawChain(fns, p.rest, p.x);
        DrawUnfold(fns, text, x, p, d);
        ChainAppend(p.runs, d.runs, x, p.x, d.x);
        assert DrawnBy(p.runs + d.runs, fns) by {
          forall i | 0 <= i < |p.runs + d.runs|
            ensures (p.runs + d.runs)[i].bytes != [] && (p.runs + d.runs)[i].font in fns
          {
            if i >= |p.runs| {
              assert (p.runs + d.runs)[i] == d.runs[i - |p.runs|];
            }
          }
        }
      }
    }
    ChainForward(Draw(fns, text, x).runs, x, Draw(fns, text, x).x);
  }

  /** Phase B drops text only when no font can shape its first bytes. */
  lemma {:induction false} DrawDropped(fns: seq<Font>, text: seq<byte>, x: int)
    ensures Draw(fns, text, x).dropped != [] ==> NoneShapes(fns, Draw(fns, text, x).dropped)
    decreases |text|
  {
    if text != [] {
      var p := PassFrom(fns, text, x);
      PassStuck(fns, text, x);
      if |p.rest| != |text| {
        var d := Draw(fns, p.rest, p.x);
        DrawDropped(fns, p.rest, p.x);
        DrawUnfold(fns, text, x, p, d);
      }
    }
  }

  /** Phase B after a pass that drew something, written out. */
  lemma DrawUnfold(fns: seq<Font>, text: seq<byte>, x: int, p: Pass, d: Drawing)
    requires text != [] && p == PassFrom(fns, text, x) && |p.rest| != |text|
    requires d == Draw(fns, p.rest, p.x)
    ensures Draw(fns, text, x) == Drawing(p.runs + d.runs, d.x, d.dropped)
  {
  }

  /** A font that shapes the whole text draws it in one run, and nothing is dropped. */
  lemma OneFontDrawsAll(f: Font, text: seq<byte>, x: int)
    requires text != [] && ShapedBytes(f.textToGlyphs(text)) >= |text|
    ensures Draw([f], text, x) == Drawing([Run(f, text, x)], x + f.advance(text), [])
  {
    assert Taken(f, text) == |text| && text[..|text|] == text;
    assert PassFrom([f], text, x) == Pass([Run(f, text, x)], x + f.advance(text), []);
  }

  /** Without fonts Phase B draws nothing and drops the whole text. */
  lemma NoFontsDropAll(text: seq<byte>, x: int)
    requires text != []
    ensures Draw([], text, x) == Drawing([], x, text)
  {
    assert PassFrom([], text, x) == Pass([], x, text);
  }
}
