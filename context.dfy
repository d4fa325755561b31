/**
 * The text path of the cairo drawing context (`cairo::context`): drawing a
 * text block across the cascade of registered fonts, and registering fonts.
 *
 * Drawing a text block goes in two phases. Phase A walks the decoded
 * characters: a leading run that some font covers is passed over, and a
 * front character no font covers has its bytes cut out of the text (with a
 * warning). Phase B hands what is left to the fonts, pass after pass, each
 * font drawing the prefix it can shape, until the text is used up or a whole
 * pass draws nothing. The logger is the `warnings` sequence of the context.
 */
module CairoContext {
  import opened Ints
  import opened Utf8
  import opened Fonts
  import opened CairoDraw

  /** What the context logs while drawing. */
  datatype Warning =
    | DroppedChar(glyph: seq<byte>, codepoint: nat)   // "Dropping unmatched character %s (U+%04x)"
    | DroppedText(text: seq<byte>)                    // "Dropping unmatched characters: %s"

  /** `cairo::textblock`. The font index only steers the font sort, which is not modelled. */
  datatype TextBlock = TextBlock(contents: seq<byte>, fontindex: byte)

  // ---------------------------------------------------------------------------
  // Phase A, as functions
  // ---------------------------------------------------------------------------

  /** What one round of Phase A's font loop takes: the match count of the first
      font, in list order, that matches at least one leading character, or 0. */
  function FirstMatch(fns: seq<Font>, cs: seq<UnicodeChar>): (m: nat)
    ensures m <= |cs|
    decreases |fns|
  {
    if fns == [] then 0
    else if MatchCount(fns[0], cs) != 0 then MatchCount(fns[0], cs)
    else FirstMatch(fns[1..], cs)
  }

  /** `s[lo..hi]` when that is in range, empty otherwise. */
  function Slice(s: seq<byte>, lo: int, hi: int): seq<byte>
  {
    if 0 <= lo <= hi <= |s| then s[lo..hi] else []
  }

  /** The bytes Phase A keeps out of `w`, the bytes the records `cs` cover
      back to back: a covered run is kept whole, an uncovered front record is cut. */
  function Filter(fns: seq<Font>, w: seq<byte>, cs: seq<UnicodeChar>): seq<byte>
    decreases |cs|
  {
    if cs == [] then []
    else
      var m := FirstMatch(fns, cs);
      if m > 0 then
        var n := Span(cs[..m]);
        Slice(w, 0, n) + Filter(fns, Slice(w, n, |w|), cs[m..])
      else
        Filter(fns, Slice(w, cs[0].length, |w|), cs[1..])
  }

  /** The text Phase A leaves: the covered bytes of the decoded span, then the
      bytes the decoder did not reach, as they were. */
  function Filtered(fns: seq<Font>, s: seq<byte>, cs: seq<UnicodeChar>): seq<byte>
    requires 0 <= Span(cs) <= |s|
  {
    Filter(fns, s[..Span(cs)], cs) + s[Span(cs)..]
  }

  /** The C string the `%s` of the warning prints: the bytes before the first NUL. */
  function CString(b: seq<byte>): (r: seq<byte>)
    ensures |r| <= |b|
    ensures forall i :: 0 <= i < |r| ==> r[i] == b[i] && r[i] != 0
    ensures |r| < |b| ==> b[|r|] == 0
    decreases |b|
  {
    if b == [] || b[0] == 0 then [] else [b[0]] + CString(b[1..])
  }

  /** The warnings Phase A logs: one per dropped character, in order. */
  function DropWarnings(fns: seq<Font>, cs: seq<UnicodeChar>): (ws: seq<Warning>)
    ensures |ws| <= |cs|
    decreases |cs|
  {
    if cs == [] then []
    else
      var m := FirstMatch(fns, cs);
      if m > 0 then DropWarnings(fns, cs[m..])
      else [CharWarning(cs[0])] + DropWarnings(fns, cs[1..])
  }

  /** Two record lists that agree on everything except offsets. */
  predicate SameShape(a: seq<UnicodeChar>, b: seq<UnicodeChar>)
  {
    |a| == |b| &&
    forall i :: 0 <= i < |a| ==> a[i].codepoint == b[i].codepoint && a[i].length == b[i].length
  }

  /** Moves every record `d` bytes to the left. */
  function Shift(cs: seq<UnicodeChar>, d: int): (r: seq<UnicodeChar>)
    ensures SameShape(r, cs)
    ensures forall i :: 0 <= i < |r| ==> r[i].offset == cs[i].offset - d
  {
    seq(|cs|, i requires 0 <= i < |cs| => cs[i].(offset := cs[i].offset - d))
  }

  // ---------------------------------------------------------------------------
  // Phase A, as the source runs it
  // ---------------------------------------------------------------------------

  /** Phase A of `operator<<(const textblock&)`: strips covered runs off the
      front of the character list, and cuts each uncovered front character's
      bytes out of the text, shifting the offsets of the characters still to
      be examined. */
  method DropUncovered(fns: seq<Font>, text0: seq<byte>, chars0: seq<UnicodeChar>)
    returns (text: seq<byte>, warnings: seq<Warning>)
    requires WellFormed(chars0, text0)
    ensures 0 <= Span(chars0) && text == Filtered(fns, text0, chars0)
    ensures warnings == DropWarnings(fns, chars0)
  {
    SpanNonNegative(chars0);
    text := text0;
    warnings := [];
    var chars := chars0;
    ghost var o, e := 0, Span(chars0);
    PhaseAStart(fns, text0, chars0);
    while chars != []
      invariant PhaseA(fns, text0, chars0, text, chars, warnings, o, e)
      decreases |chars|
    {
      var remaining := |chars|;
      ghost var cs := chars;
      chars := MatchRound(fns, chars);
      if remaining == |chars| && chars != [] {
        ghost var e' := e - cs[0].length;
        text, chars, warnings := DropRound(fns, text0, chars0, text, chars, warnings, o, e, e');
        e := e';
      } else {
        ghost var m := FirstMatch(fns, cs);
        ghost var o' := o + Span(cs[..m]);
        PhaseAMatch(fns, text0, chars0, text, cs, warnings, o, e, chars, m, o');
        o := o';
      }
    }
    PhaseAEnd(fns, text0, chars0, text, warnings, o, e);
  }

  /** The drop branch of a Phase A round, with the warning it logs. */
  method DropRound(ghost fns: seq<Font>, ghost text0: seq<byte>, ghost chars0: seq<UnicodeChar>,
                   text: seq<byte>, chars: seq<UnicodeChar>, warnings: seq<Warning>,
                   ghost o: int, ghost e: int, ghost e': int)
    returns (text': seq<byte>, chars': seq<UnicodeChar>, warnings': seq<Warning>)
    requires PhaseA(fns, text0, chars0, text, chars, warnings, o, e)
    requires chars != [] && FirstMatch(fns, chars) == 0 && e' == e - chars[0].length
    ensures PhaseA(fns, text0, chars0, text', chars', warnings', o, e')
    ensures |chars'| == |chars| - 1
  {
    PhaseAFront(fns, text0, chars0, text, chars, warnings, o, e);
    var w;
    text', chars', w := DropFront(text, chars);
    PhaseADrop(fns, text0, chars0, text, chars, warnings, o, e, text', chars', e', w);
    warnings' := warnings + [w];
  }

  /** The loop invariant of Phase A: the records still to be examined cover
      `text[o..e]` back to back, and what the rest of Phase A will make of
      `text` and log is what the whole of it makes of `text0`. */
  ghost predicate PhaseA(fns: seq<Font>, text0: seq<byte>, chars0: seq<UnicodeChar>,
                         text: seq<byte>, chars: seq<UnicodeChar>, warnings: seq<Warning>, o: int, e: int)
  {
    0 <= Span(chars0) <= |text0| &&
    Consecutive(chars, o) && 0 <= o <= e <= |text| && e == o + Span(chars) && Sized(chars) &&
    text[..o] + Filter(fns, text[o..e], chars) + text[e..] == Filtered(fns, text0, chars0) &&
    warnings + DropWarnings(fns, chars) == DropWarnings(fns, chars0)
  }

  lemma PhaseAStart(fns: seq<Font>, text0: seq<byte>, chars0: seq<UnicodeChar>)
    requires WellFormed(chars0, text0) && 0 <= Span(chars0)
    ensures PhaseA(fns, text0, chars0, text0, chars0, [], 0, Span(chars0))
  {
    assert text0[..0] + text0[0..Span(chars0)] == text0[..Span(chars0)];
  }

  lemma PhaseAEnd(fns: seq<Font>, text0: seq<byte>, chars0: seq<UnicodeChar>,
                  text: seq<byte>, warnings: seq<Warning>, o: int, e: int)
    requires PhaseA(fns, text0, chars0, text, [], warnings, o, e)
    ensures 0 <= Span(chars0) <= |text0| && text == Filtered(fns, text0, chars0)
    ensures warnings == DropWarnings(fns, chars0)
  {
    assert text[..o] + [] + text[o..] == text;
  }

  /** What the drop branch needs of the front record. */
  lemma PhaseAFront(fns: seq<Font>, text0: seq<byte>, chars0: seq<UnicodeChar>,
                    text: seq<byte>, chars: seq<UnicodeChar>, warnings: seq<Warning>, o: int, e: int)
    requires PhaseA(fns, text0, chars0, text, chars, warnings, o, e) && chars != []
    ensures chars[0].codepoint <= 0x1F_FFFF && chars[0].offset == o && 1 <= chars[0].length
    ensures o + chars[0].length <= e <= |text|
  {
    SpanNonNegative(chars[1..]);
  }

  lemma PhaseAMatch(fns: seq<Font>, text0: seq<byte>, chars0: seq<UnicodeChar>,
                    text: seq<byte>, cs: seq<UnicodeChar>, warnings: seq<Warning>, o: int, e: int,
                    rest: seq<UnicodeChar>, m: nat, o': int)
    requires PhaseA(fns, text0, chars0, text, cs, warnings, o, e)
    requires cs != [] && m == FirstMatch(fns, cs) && m > 0 && rest == cs[m..]
    requires o' == o + Span(cs[..m])
    ensures PhaseA(fns, text0, chars0, text, rest, warnings, o', e)
  {
    MatchStep(fns, text, cs, rest, o, e, m, o');
  }

  lemma PhaseADrop(fns: seq<Font>, text0: seq<byte>, chars0: seq<UnicodeChar>,
                   text: seq<byte>, cs: seq<UnicodeChar>, warnings: seq<Warning>, o: int, e: int,
                   text': seq<byte>, cs': seq<UnicodeChar>, e': int, w: Warning)
    requires PhaseA(fns, text0, chars0, text, cs, warnings, o, e)
    requires cs != [] && FirstMatch(fns, cs) == 0 && o + cs[0].length <= e
    requires text' == text[..o] + text[o + cs[0].length..] && cs' == Shift(cs, cs[0].length)[1..]
    requires e' == e - cs[0].length && w == CharWarning(cs[0])
    ensures PhaseA(fns, text0, chars0, text', cs', warnings + [w], o, e')
  {
    DropStep(fns, text, cs, o, e, cs[0].length, text', cs', e');
    assert text'[..o] + Filter(fns, text'[o..e'], cs') + text'[e'..] == Filtered(fns, text0, chars0);
    assert warnings + [w] + DropWarnings(fns, cs') == warnings + DropWarnings(fns, cs);
  }

  /** One round of Phase A's font loop: the first font, in list order, that
      matches at least one leading character has those characters erased. */
  method MatchRound(fns: seq<Font>, chars0: seq<UnicodeChar>) returns (chars: seq<UnicodeChar>)
    ensures chars == chars0[FirstMatch(fns, chars0)..]
  {
    chars := chars0;
    var i := 0;
    while i < |fns|
      invariant 0 <= i <= |fns| && chars == chars0
      invariant FirstMatch(fns[i..], chars0) == FirstMatch(fns, chars0)
    {
      var matches := fns[i].Match(chars);
      if matches != 0 {
        var end := 0;
        var left: nat := matches;
        while left != 0 && end != |chars|
          invariant end + left == matches && end <= |chars|
          decreases left
        {
          left := left - 1;
          end := end + 1;
        }
        assert fns[i..][0] == fns[i];
        chars := chars[end..];
        return;
      }
      assert fns[i..][1..] == fns[i + 1..];
      i := i + 1;
    }
  }

  /** The warning for an uncovered character. Its codepoint reaches
      `ucs4_to_utf8` as a `uint32_t`, and `%s` prints the buffer up to its NUL. */
  function CharWarning(c: UnicodeChar): Warning
  {
    DroppedChar(CString(Encode(c.codepoint % 0x1_0000_0000)), c.codepoint)
  }

  /** The drop branch of Phase A: encodes the front character into the
      warning buffer, erases its bytes from the text, moves every record left
      by its length and erases the front record. */
  method DropFront(text0: seq<byte>, chars0: seq<UnicodeChar>)
    returns (text: seq<byte>, chars: seq<UnicodeChar>, warning: Warning)
    requires chars0 != [] && chars0[0].codepoint <= 0x1F_FFFF
    requires 0 <= chars0[0].offset && 0 <= chars0[0].length && chars0[0].offset + chars0[0].length <= |text0|
    ensures text == text0[..chars0[0].offset] + text0[chars0[0].offset + chars0[0].length..]
    ensures chars == Shift(chars0, chars0[0].length)[1..]
    ensures warning == CharWarning(chars0[0])
  {
    warning := WarnChar(chars0[0]);
    var off, len := chars0[0].offset, chars0[0].length;
    text := text0[..off] + text0[off + len..];
    chars := ShiftLeft(chars0, len);
    chars := chars[1..];
  }

  /** The warning for a dropped character, printed from a five-byte zeroed
      buffer that `ucs4_to_utf8` fills. */
  method WarnChar(c: UnicodeChar) returns (warning: Warning)
    requires c.codepoint <= 0x1F_FFFF
    ensures warning == CharWarning(c)
  {
    var ucs: uint32 := c.codepoint % 0x1_0000_0000;
    var unicode := new byte[5](_ => 0);
    var n := Ucs4ToUtf8(unicode, ucs);
    assert unicode[..] == Encode(ucs) + unicode[n..];
    CStringZeroTail(Encode(ucs), unicode[n..]);
    warning := DroppedChar(CString(unicode[..]), c.codepoint);
  }

  /** Moves every record `d` bytes to the left. */
  method ShiftLeft(chars0: seq<UnicodeChar>, d: int) returns (chars: seq<UnicodeChar>)
    ensures chars == Shift(chars0, d)
  {
    chars := chars0;
    var j := 0;
    while j < |chars|
      invariant 0 <= j <= |chars| == |chars0|
      invariant forall k :: 0 <= k < |chars| ==>
        chars[k] == if k < j then chars0[k].(offset := chars0[k].offset - d) else chars0[k]
    {
      chars := chars[j := chars[j].(offset := chars[j].offset - d)];
      j := j + 1;
    }
  }

  // ---------------------------------------------------------------------------
  // Phase A, the steps of its loop
  // ---------------------------------------------------------------------------

  lemma {:induction false} SpanNonNegative(cs: seq<UnicodeChar>)
    requires forall i :: 0 <= i < |cs| ==> 0 <= cs[i].length
    ensures 0 <= Span(cs)
    decreases |cs|
  {
    if cs != [] {
      SpanNonNegative(cs[1..]);
    }
  }

  lemma {:induction false} SpanSplit(cs: seq<UnicodeChar>, m: nat)
    requires m <= |cs|
    ensures Span(cs) == Span(cs[..m]) + Span(cs[m..])
    decreases m
  {
    if m > 0 {
      SpanSplit(cs[1..], m - 1);
      assert cs[..m][1..] == cs[1..][..m - 1];
      assert cs[1..][m - 1..] == cs[m..];
    } else {
      assert cs[..0] == [] && cs[0..] == cs;
    }
  }

  lemma {:induction false} ConsecutiveSplit(cs: seq<UnicodeChar>, o: int, m: nat)
    requires m <= |cs| && Consecutive(cs, o)
    ensures Consecutive(cs[m..], o + Span(cs[..m]))
    decreases m
  {
    if m > 0 {
      ConsecutiveSplit(cs[1..], o + cs[0].length, m - 1);
      assert cs[..m][1..] == cs[1..][..m - 1];
      assert cs[1..][m - 1..] == cs[m..];
    } else {
      assert cs[..0] == [] && cs[0..] == cs;
    }
  }

  lemma ShiftTail(cs: seq<UnicodeChar>, d: int)
    requires cs != []
    ensures Shift(cs, d)[1..] == Shift(cs[1..], d)
  {
  }

  lemma {:induction false} ConsecutiveShift(cs: seq<UnicodeChar>, o: int, d: int)
    requires Consecutive(cs, o)
    ensures Consecutive(Shift(cs, d), o - d)
    decreases |cs|
  {
    if cs != [] {
      ConsecutiveShift(cs[1..], o + cs[0].length, d);
      ShiftTail(cs, d);
    }
  }

  lemma {:induction false} SpanSame(a: seq<UnicodeChar>, b: seq<UnicodeChar>)
    requires SameShape(a, b)
    ensures Span(a) == Span(b)
    decreases |a|
  {
    if a != [] {
      SpanSame(a[1..], b[1..]);
    }
  }

  lemma {:induction false} MatchCountSame(f: Font, a: seq<UnicodeChar>, b: seq<UnicodeChar>)
    requires SameShape(a, b)
    ensures MatchCount(f, a) == MatchCount(f, b)
    decreases |a|
  {
    if a != [] {
      MatchCountSame(f, a[1..], b[1..]);
    }
  }

  lemma {:induction false} FirstMatchSame(fns: seq<Font>, a: seq<UnicodeChar>, b: seq<UnicodeChar>)
    requires SameShape(a, b)
    ensures FirstMatch(fns, a) == FirstMatch(fns, b)
    decreases |fns|
  {
    if fns != [] {
      MatchCountSame(fns[0], a, b);
      FirstMatchSame(fns[1..], a, b);
    }
  }

  /** Phase A's decisions read the codepoints and lengths of the records, never their offsets. */
  lemma {:induction false} FilterSame(fns: seq<Font>, w: seq<byte>, a: seq<UnicodeChar>, b: seq<UnicodeChar>)
    requires SameShape(a, b)
    ensures Filter(fns, w, a) == Filter(fns, w, b)
    ensures DropWarnings(fns, a) == DropWarnings(fns, b)
    decreases |a|
  {
    if a != [] {
      FirstMatchSame(fns, a, b);
      var m := FirstMatch(fns, a);
      if m > 0 {
        SpanSame(a[..m], b[..m]);
        FilterSame(fns, Slice(w, Span(a[..m]), |w|), a[m..], b[m..]);
        FilterSame(fns, w, a[m..], b[m..]);
      } else {
        FilterSame(fns, Slice(w, a[0].length, |w|), a[1..], b[1..]);
        FilterSame(fns, w, a[1..], b[1..]);
      }
    }
  }

  /** A round of Phase A in which a font matches the `m` leading characters:
      the window of the records moves past them to `o'`, the text stays as it
      is, and no warning is logged. */
  lemma MatchStep(fns: seq<Font>, t: seq<byte>, cs: seq<UnicodeChar>, rest: seq<UnicodeChar>,
                  o: int, e: int, m: nat, o': int)
    requires cs != [] && m == FirstMatch(fns, cs) && m > 0 && rest == cs[m..]
    requires Consecutive(cs, o) && 0 <= o && e == o + Span(cs) && e <= |t|
    requires Sized(cs)
    requires o' == o + Span(cs[..m])
    ensures Consecutive(rest, o') && 0 <= o <= o' <= e && e == o' + Span(rest) && Sized(rest)
    ensures t[..o] + Filter(fns, t[o..e], cs) + t[e..] == t[..o'] + Filter(fns, t[o'..e], rest) + t[e..]
    ensures DropWarnings(fns, cs) == DropWarnings(fns, rest)
  {
    MatchShape(cs, o, e, m, o');
    MatchText(fns, t, cs, o, e, m, o');
    FilterRun(fns, t[o..e], cs, m, Span(cs[..m]));
  }

  lemma MatchShape(cs: seq<UnicodeChar>, o: int, e: int, m: nat, o': int)
    requires 0 < m <= |cs|
    requires Consecutive(cs, o) && 0 <= o && e == o + Span(cs)
    requires Sized(cs)
    requires o' == o + Span(cs[..m])
    ensures Consecutive(cs[m..], o') && o <= o' <= e && e == o' + Span(cs[m..])
  {
    SpanSplit(cs, m);
    SpanNonNegative(cs[..m]);
    SpanNonNegative(cs[m..]);
    ConsecutiveSplit(cs, o, m);
  }

  lemma MatchText(fns: seq<Font>, t: seq<byte>, cs: seq<UnicodeChar>, o: int, e: int, m: nat, o': int)
    requires cs != [] && m == FirstMatch(fns, cs) && m > 0
    requires o' == o + Span(cs[..m]) && 0 <= o <= o' <= e <= |t|
    ensures t[..o] + Filter(fns, t[o..e], cs) + t[e..] == t[..o'] + Filter(fns, t[o'..e], cs[m..]) + t[e..]
  {
    FilterRunAt(fns, t, cs, o, e, m, o' - o);
    Splice(t, o, o', e, Filter(fns, t[o..e], cs), Filter(fns, t[o'..e], cs[m..]));
  }

  /** Filter unfolded for a round in which a font matches, on a window of the text. */
  lemma FilterRunAt(fns: seq<Font>, t: seq<byte>, cs: seq<UnicodeChar>, o: int, e: int, m: nat, n: int)
    requires cs != [] && m == FirstMatch(fns, cs) && m > 0 && n == Span(cs[..m])
    requires 0 <= o && 0 <= n && o + n <= e <= |t|
    ensures Filter(fns, t[o..e], cs) == t[o..o + n] + Filter(fns, t[o + n..e], cs[m..])
  {
    var w := t[o..e];
    FilterRun(fns, w, cs, m, n);
    Windows(t, o, n, e);
    assert Slice(w, n, |w|) == t[o + n..e];
  }

  /** The text around a window whose kept bytes begin with its first `p - o` bytes. */
  lemma Splice(t: seq<byte>, o: int, p: int, e: int, whole: seq<byte>, rest: seq<byte>)
    requires 0 <= o <= p <= e <= |t|
    requires whole == t[o..p] + rest
    ensures t[..o] + whole + t[e..] == t[..p] + rest + t[e..]
  {
    assert t[..o] + t[o..p] == t[..p];
  }

  /** Filter unfolded for a round in which a font matches. */
  lemma FilterRun(fns: seq<Font>, w: seq<byte>, cs: seq<UnicodeChar>, m: nat, n: int)
    requires cs != [] && m == FirstMatch(fns, cs) && m > 0 && n == Span(cs[..m])
    ensures Filter(fns, w, cs) == Slice(w, 0, n) + Filter(fns, Slice(w, n, |w|), cs[m..])
    ensures DropWarnings(fns, cs) == DropWarnings(fns, cs[m..])
  {
  }

  /** How the window of a run of records splits at a record boundary. */
  lemma Windows(t: seq<byte>, o: int, n: int, e: int)
    requires 0 <= o && 0 <= n && o + n <= e <= |t|
    ensures Slice(t[o..e], 0, n) == t[o..o + n]
    ensures Slice(t[o..e], n, |t[o..e]|) == t[o + n..e]
  {
  }

  /** A round of Phase A in which no font matches the front character: its
      bytes leave the text, and the records behind it move left by its length. */
  lemma DropStep(fns: seq<Font>, t: seq<byte>, cs: seq<UnicodeChar>, o: int, e: int,
                 l: int, t': seq<byte>, cs': seq<UnicodeChar>, e': int)
    requires cs != [] && FirstMatch(fns, cs) == 0
    requires Consecutive(cs, o) && 0 <= o && e == o + Span(cs) && e <= |t|
    requires Sized(cs)
    requires l == cs[0].length && o + l <= e
    requires t' == t[..o] + t[o + l..] && cs' == Shift(cs, l)[1..] && e' == e - l
    ensures Consecutive(cs', o) && o <= e' && e' == o + Span(cs') && e' <= |t'| && Sized(cs')
    ensures t'[..o] + Filter(fns, t'[o..e'], cs') + t'[e'..] == t[..o] + Filter(fns, t[o..e], cs) + t[e..]
    ensures DropWarnings(fns, cs) == [CharWarning(cs[0])] + DropWarnings(fns, cs')
  {
    SpanNonNegative(cs[1..]);
    ShiftTail(cs, l);
    ConsecutiveShift(cs[1..], o + l, l);
    SpanSame(cs', cs[1..]);
    Windows(t, o, l, e);
    FilterCut(fns, t[o..e], cs);
    Cut(t, t', o, l, e, e');
    FilterSame(fns, t[o + l..e], cs', cs[1..]);
  }

  /** Where the bytes around a cut `[o, o + l)` end up. */
  lemma Cut(t: seq<byte>, t': seq<byte>, o: int, l: int, e: int, e': int)
    requires 0 <= o && 0 <= l && o + l <= e <= |t|
    requires t' == t[..o] + t[o + l..] && e' == e - l
    ensures t'[..o] == t[..o] && t'[o..e'] == t[o + l..e] && t'[e'..] == t[e..]
  {
  }

  /** Filter unfolded for a round in which no font matches. */
  lemma FilterCut(fns: seq<Font>, w: seq<byte>, cs: seq<UnicodeChar>)
    requires cs != [] && FirstMatch(fns, cs) == 0
    ensures Filter(fns, w, cs) == Filter(fns, Slice(w, cs[0].length, |w|), cs[1..])
  {
  }

  lemma {:induction false} CStringZeroTail(a: seq<byte>, r: seq<byte>)
    requires r != [] && r[0] == 0
    ensures CString(a + r) == CString(a)
    decreases |a|
  {
    if a == [] {
      assert a + r == r;
    } else {
      assert (a + r)[1..] == a[1..] + r;
      CStringZeroTail(a[1..], r);
    }
  }

  // ---------------------------------------------------------------------------
  // What Phase A guarantees, against a character-by-character reference
  // ---------------------------------------------------------------------------

  /** Some font has a glyph for the character. */
  predicate Covered(fns: seq<Font>, c: UnicodeChar)
  {
    exists i :: 0 <= i < |fns| && fns[i].charIndex(c.codepoint) != 0
  }

  /** The bytes of the covered characters among the records `cs`, which cover
      `w` back to back, in order. */
  function Kept(fns: seq<Font>, w: seq<byte>, cs: seq<UnicodeChar>): seq<byte>
    decreases |cs|
  {
    if cs == [] then []
    else
      (if Covered(fns, cs[0]) then Slice(w, 0, cs[0].length) else [])
      + Kept(fns, Slice(w, cs[0].length, |w|), cs[1..])
  }

  /** One warning per character no font covers, in order. */
  function Uncovered(fns: seq<Font>, cs: seq<UnicodeChar>): seq<Warning>
    decreases |cs|
  {
    if cs == [] then []
    else (if Covered(fns, cs[0]) then [] else [CharWarning(cs[0])]) + Uncovered(fns, cs[1..])
  }

  /** A round of Phase A drops the front character exactly when no font has a
      glyph for it, and a run it passes over holds only covered characters. */
  lemma {:induction false} FirstMatchCovers(fns: seq<Font>, cs: seq<UnicodeChar>)
    requires cs != []
    ensures FirstMatch(fns, cs) == 0 <==> !Covered(fns, cs[0])
    ensures forall j :: 0 <= j < FirstMatch(fns, cs) ==> Covered(fns, cs[j])
    decreases |fns|
  {
    if fns != [] {
      FirstMatchCovers(fns[1..], cs);
      var m := MatchCount(fns[0], cs);
      if m != 0 {
        forall j | 0 <= j < m
          ensures Covered(fns, cs[j])
        {
          assert fns[0].charIndex(cs[j].codepoint) != 0;
        }
      } else {
        assert fns[0].charIndex(cs[0].codepoint) == 0;
        if Covered(fns, cs[0]) {
          var i :| 0 <= i < |fns| && fns[i].charIndex(cs[0].codepoint) != 0;
          assert fns[1..][i - 1] == fns[i];
        }
        forall j | 0 <= j < FirstMatch(fns[1..], cs)
          ensures Covered(fns, cs[j])
        {
          var i :| 0 <= i < |fns[1..]| && fns[1..][i].charIndex(cs[j].codepoint) != 0;
          assert fns[i + 1] == fns[1..][i];
        }
      }
    }
  }

  /** The reference definition over a run of covered characters keeps its bytes whole. */
  lemma {:induction false} KeptRun(fns: seq<Font>, w: seq<byte>, cs: seq<UnicodeChar>, m: nat, n: int)
    requires 0 < m <= |cs| && Sized(cs) && |w| == Span(cs)
    requires forall j :: 0 <= j < m ==> Covered(fns, cs[j])
    requires n == Span(cs[..m])
    ensures 0 <= n <= |w|
    ensures Kept(fns, w, cs) == w[..n] + Kept(fns, w[n..], cs[m..])
    decreases m
  {
    var l := cs[0].length;
    KeptCons(fns, w, cs);
    SpanHead(cs, m);
    if m == 1 {
      assert cs[1..][..0] == [] && cs[1..] == cs[m..];
    } else {
      CoveredTail(fns, cs, m);
      KeptRun(fns, w[l..], cs[1..], m - 1, n - l);
      assert cs[1..][m - 1..] == cs[m..] && w[l..][n - l..] == w[n..];
      Rejoin(w, l, n, Kept(fns, w[l..], cs[1..]), Kept(fns, w[n..], cs[m..]));
    }
  }

  /** A covered run without its first character is still covered. */
  lemma CoveredTail(fns: seq<Font>, cs: seq<UnicodeChar>, m: nat)
    requires 0 < m <= |cs| && forall j :: 0 <= j < m ==> Covered(fns, cs[j])
    ensures forall j :: 0 <= j < m - 1 ==> Covered(fns, cs[1..][j])
  {
    forall j | 0 <= j < m - 1
      ensures Covered(fns, cs[1..][j])
    {
      assert cs[1..][j] == cs[j + 1];
    }
  }

  lemma Rejoin(w: seq<byte>, l: int, n: int, tail: seq<byte>, rest: seq<byte>)
    requires 0 <= l <= n <= |w| && tail == w[l..][..n - l] + rest
    ensures w[..l] + tail == w[..n] + rest
  {
    assert w[l..][..n - l] == w[l..n];
    assert w[..l] + (w[l..n] + rest) == w[..n] + rest;
  }

  lemma KeptCons(fns: seq<Font>, w: seq<byte>, cs: seq<UnicodeChar>)
    requires cs != [] && Sized(cs) && |w| == Span(cs) && Covered(fns, cs[0])
    ensures cs[0].length <= |w| && |w[cs[0].length..]| == Span(cs[1..])
    ensures Kept(fns, w, cs) == w[..cs[0].length] + Kept(fns, w[cs[0].length..], cs[1..])
  {
    SpanNonNegative(cs[1..]);
    var l := cs[0].length;
    assert Slice(w, 0, l) == w[..l] && Slice(w, l, |w|) == w[l..];
    assert Kept(fns, w, cs) == Slice(w, 0, l) + Kept(fns, Slice(w, l, |w|), cs[1..]);
  }

  /** The span of a prefix, first record apart. */
  lemma SpanHead(cs: seq<UnicodeChar>, m: nat)
    requires 0 < m <= |cs| && Sized(cs)
    ensures Span(cs[..m]) == cs[0].length + Span(cs[1..][..m - 1])
    ensures Sized(cs[1..]) && 0 <= Span(cs[1..][..m - 1])
  {
    assert cs[..m][1..] == cs[1..][..m - 1];
    SpanNonNegative(cs[1..][..m - 1]);
  }

  /** A run of covered characters logs nothing. */
  lemma {:induction false} UncoveredRun(fns: seq<Font>, cs: seq<UnicodeChar>, m: nat)
    requires m <= |cs|
    requires forall j :: 0 <= j < m ==> Covered(fns, cs[j])
    ensures Uncovered(fns, cs) == Uncovered(fns, cs[m..])
    decreases m
  {
    if m > 0 {
      assert Covered(fns, cs[0]);
      CoveredTail(fns, cs, m);
      UncoveredRun(fns, cs[1..], m - 1);
      assert cs[1..][m - 1..] == cs[m..];
    }
  }

  /** Phase A keeps exactly the bytes of the covered characters, in order. */
  lemma {:induction false} FilterIsKept(fns: seq<Font>, w: seq<byte>, cs: seq<UnicodeChar>)
    requires Sized(cs) && |w| == Span(cs)
    ensures Filter(fns, w, cs) == Kept(fns, w, cs)
    decreases |cs|
  {
    if cs != [] {
      FirstMatchCovers(fns, cs);
      var m := FirstMatch(fns, cs);
      if m > 0 {
        var n := Span(cs[..m]);
        KeptRun(fns, w, cs, m, n);
        SpanSplit(cs, m);
        SpanNonNegative(cs[m..]);
        assert Slice(w, 0, n) == w[..n] && Slice(w, n, |w|) == w[n..];
        FilterIsKept(fns, w[n..], cs[m..]);
      } else {
        var l := cs[0].length;
        SpanNonNegative(cs[1..]);
        assert Slice(w, l, |w|) == w[l..];
        assert [] + Kept(fns, w[l..], cs[1..]) == Kept(fns, w[l..], cs[1..]);
        FilterIsKept(fns, w[l..], cs[1..]);
      }
    }
  }

  /** Phase A warns about exactly the characters no font covers, in order. */
  lemma {:induction false} DropWarningsAreUncovered(fns: seq<Font>, cs: seq<UnicodeChar>)
    requires Sized(cs)
    ensures DropWarnings(fns, cs) == Uncovered(fns, cs)
    decreases |cs|
  {
    if cs != [] {
      FirstMatchCovers(fns, cs);
      var m := FirstMatch(fns, cs);
      if m > 0 {
        UncoveredRun(fns, cs, m);
        DropWarningsAreUncovered(fns, cs[m..]);
      } else {
        DropWarningsAreUncovered(fns, cs[1..]);
      }
    }
  }

  /** When every character is covered, Phase A changes nothing and warns about nothing. */
  lemma {:induction false} AllCoveredKeepsAll(fns: seq<Font>, w: seq<byte>, cs: seq<UnicodeChar>)
    requires Sized(cs) && |w| == Span(cs)
    requires forall j :: 0 <= j < |cs| ==> Covered(fns, cs[j])
    ensures Kept(fns, w, cs) == w && Uncovered(fns, cs) == []
    decreases |cs|
  {
    if cs != [] {
      var l := cs[0].length;
      SpanNonNegative(cs[1..]);
      assert Slice(w, 0, l) == w[..l] && Slice(w, l, |w|) == w[l..];
      assert Covered(fns, cs[0]);
      forall j | 0 <= j < |cs[1..]|
        ensures Covered(fns, cs[1..][j])
      {
        assert cs[1..][j] == cs[j + 1];
      }
      AllCoveredKeepsAll(fns, w[l..], cs[1..]);
      assert w[..l] + w[l..] == w;
    }
  }

  /** With no fonts Phase A keeps nothing and warns about every character. */
  lemma {:induction false} NoFontsKeepNothing(w: seq<byte>, cs: seq<UnicodeChar>)
    ensures Kept([], w, cs) == []
    ensures |Uncovered([], cs)| == |cs|
    ensures forall j :: 0 <= j < |cs| ==> Uncovered([], cs)[j] == CharWarning(cs[j])
  {
    NoFontsKeep(w, cs);
    NoFontsWarn(cs);
  }

  lemma {:induction false} NoFontsKeep(w: seq<byte>, cs: seq<UnicodeChar>)
    ensures Kept([], w, cs) == []
    decreases |cs|
  {
    if cs != [] {
      assert !Covered([], cs[0]);
      NoFontsKeep(Slice(w, cs[0].length, |w|), cs[1..]);
    }
  }

  lemma {:induction false} NoFontsWarn(cs: seq<UnicodeChar>)
    ensures |Uncovered([], cs)| == |cs|
    ensures forall j :: 0 <= j < |cs| ==> Uncovered([], cs)[j] == CharWarning(cs[j])
    decreases |cs|
  {
    if cs != [] {
      assert !Covered([], cs[0]);
      NoFontsWarn(cs[1..]);
      assert Uncovered([], cs) == [CharWarning(cs[0])] + Uncovered([], cs[1..]);
    }
  }

  /** A C string without a NUL is printed whole. */
  lemma {:induction false} CStringNoNul(b: seq<byte>)
    requires forall i :: 0 <= i < |b| ==> b[i] != 0
    ensures CString(b) == b
    decreases |b|
  {
    if b != [] {
      CStringNoNul(b[1..]);
      assert [b[0]] + b[1..] == b;
    }
  }

  /** The glyph printed for a dropped character is its UTF-8 encoding, at most
      four bytes (the five-byte buffer keeps its NUL), and it decodes back to
      the character. */
  lemma WarningGlyph(c: UnicodeChar)
    requires 0 < c.codepoint <= 0x1F_FFFF
    ensures CharWarning(c).glyph == Encode(c.codepoint) && 1 <= |CharWarning(c).glyph| <= 4
    ensures Decode(CharWarning(c).glyph) == Decoded(true, [UnicodeChar(c.codepoint, 0, |CharWarning(c).glyph|)])
  {
    var u: uint32 := c.codepoint;
    assert c.codepoint % 0x1_0000_0000 == u;
    EncodeNoNul(u);
    CStringNoNul(Encode(u));
    DecodeEncode(u);
  }

  // ---------------------------------------------------------------------------
  // The whole text path and the context
  // ---------------------------------------------------------------------------

  /** What drawing the contents `s` of a text block does from pen position `x`:
      Phase A on the characters it decodes to, then Phase B on the text Phase A leaves. */
  function Layout(fns: seq<Font>, s: seq<byte>, x: int): Drawing
  {
    Draw(fns, Filtered(fns, s, Chars(s)), x)
  }

  /** The character records `utf8_to_ucs4` produces for `s`: well formed. */
  function Chars(s: seq<byte>): (cs: seq<UnicodeChar>)
    ensures WellFormed(cs, s) && 0 <= Span(cs)
  {
    DecodeWellFormed(s);
    SpanNonNegative(Decode(s).chars);
    Decode(s).chars
  }

  /** What drawing the contents `s` of a text block logs: Phase A's warnings,
      then Phase B's when it drops text. */
  function TextWarnings(fns: seq<Font>, s: seq<byte>, x: int): seq<Warning>
  {
    DropWarnings(fns, Chars(s)) +
    (if Layout(fns, s, x).dropped == [] then [] else [DroppedText(Layout(fns, s, x).dropped)])
  }

  /** The whole text path: the runs drawn, then the text dropped, are the bytes
      of the decoded characters some font covers, in order, then the bytes the
      decoder did not reach; the characters no font covers are logged, in order. */
  lemma TextPath(fns: seq<Font>, s: seq<byte>, x: int)
    ensures Chars(s) == Decode(s).chars && Span(Chars(s)) <= |s|
    ensures Flatten(Layout(fns, s, x).runs) + Layout(fns, s, x).dropped ==
            Kept(fns, s[..Span(Chars(s))], Chars(s)) + s[Span(Chars(s))..]
    ensures DropWarnings(fns, Chars(s)) == Uncovered(fns, Chars(s))
  {
    var cs := Chars(s);
    FilterIsKept(fns, s[..Span(cs)], cs);
    DropWarningsAreUncovered(fns, cs);
    DrawFlatten(fns, Filtered(fns, s, cs), x);
  }

  /** `cairo::context`, as far as the text path uses it. */
  class Context {
    var fonts: seq<Font>
    var warnings: seq<Warning>
    const canvas: Canvas

    constructor (canvas: Canvas)
      ensures fonts == [] && warnings == [] && this.canvas == canvas
    {
      fonts := [];
      warnings := [];
      this.canvas := canvas;
    }

    /** `operator<<(unique_ptr<font>&&)`: the font joins the end of the cascade. */
    method AddFont(f: Font)
      modifies this
      ensures fonts == old(fonts) + [f] && warnings == old(warnings)
    {
      fonts := fonts + [f];
    }

    /** `operator<<(const textblock&)`: draws the block from the current pen
        position and logs what it drops. */
    method DrawText(t: TextBlock)
      modifies this`warnings, canvas
      ensures warnings == old(warnings) + TextWarnings(fonts, t.contents, old(canvas.x))
      ensures canvas.shown == old(canvas.shown) + Layout(fonts, t.contents, old(canvas.x)).runs
      ensures canvas.x == Layout(fonts, t.contents, old(canvas.x)).x
    {
      var logged := DrawBlock(fonts, t.contents, canvas);
      warnings := warnings + logged;
    }
  }

  /** The body of `operator<<(const textblock&)` over the cascade `fns`: decodes
      the contents, runs Phase A, then Phase B, and returns what it logs. */
  method DrawBlock(fns: seq<Font>, s: seq<byte>, c: Canvas) returns (logged: seq<Warning>)
    modifies c
    ensures logged == TextWarnings(fns, s, old(c.x))
    ensures c.shown == old(c.shown) + Layout(fns, s, old(c.x)).runs
    ensures c.x == Layout(fns, s, old(c.x)).x
  {
    var _, chars := Utf8ToUcs4(Some(s), []);
    assert chars == Chars(s) by {
      assert [] + Decode(s).chars == Decode(s).chars;
    }
    var text;
    text, logged := DropUncovered(fns, s, chars);
    ghost var d := Draw(fns, text, c.x);
    assert d == Layout(fns, s, c.x);
    var dropped := DrawRuns(fns, text, c);
    if dropped != [] {
      logged := logged + [DroppedText(dropped)];
    }
  }
}
