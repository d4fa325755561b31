/**
 * The UTF-8 codec of the cairo font layer: `details::utf8_to_ucs4` turns a
 * NUL-terminated byte string into (code point, byte offset, byte length)
 * records, and `details::ucs4_to_utf8` writes one value in the legacy
 * 1-to-6-byte form (RFC 3629 section 3 for 1 to 4 bytes, RFC 2279 for 5 and 6).
 *
 * Bit operations are written as arithmetic on naturals: `x >> k` is `x / 2^k`,
 * `x & (2^k - 1)` is `x % 2^k`, and every `|` in the codec joins a marker and
 * a field whose bits do not overlap, so it is written `+`.
 */
module Utf8 {
  import opened Ints

  /** One decoded character: its value and the bytes of the text it came from. */
  datatype UnicodeChar = UnicodeChar(codepoint: nat, offset: int, length: int)

  /** What the decoder reports (its boolean) and the records it has appended. */
  datatype Decoded = Decoded(ok: bool, chars: seq<UnicodeChar>)

  /** The byte read at index `i` of the C string `s`: the bytes of
      `s`, then the terminating NUL. */
  function At(s: seq<byte>, i: int): byte
  {
    if 0 <= i < |s| then s[i] else 0
  }

  /** The sequence length a leading byte announces; 0 for a byte that cannot lead. */
  function LeadLength(b: byte): (len: nat)
    ensures len <= 4
  {
    if b / 0x80 == 0 then 1
    else if b / 0x20 == 6 then 2
    else if b / 0x10 == 14 then 3
    else if b / 0x08 == 30 then 4
    else 0
  }

  /** The leading-byte classes as byte ranges: 0xxxxxxx, 110xxxxx, 1110xxxx and
      11110xxx announce 1 to 4 bytes; a continuation byte or 0xF8 to 0xFF none. */
  lemma LeadClasses(b: byte)
    ensures LeadLength(b) == 1 <==> b < 0x80
    ensures LeadLength(b) == 2 <==> 0xC0 <= b < 0xE0
    ensures LeadLength(b) == 3 <==> 0xE0 <= b < 0xF0
    ensures LeadLength(b) == 4 <==> 0xF0 <= b < 0xF8
    ensures LeadLength(b) == 0 <==> (0x80 <= b < 0xC0 || 0xF8 <= b)
  {
  }

  /** The payload bits a leading byte contributes. */
  function LeadBits(b: byte): nat
  {
    if b / 0x80 == 0 then b
    else if b / 0x20 == 6 then b % 0x20
    else if b / 0x10 == 14 then b % 0x10
    else b % 0x08
  }

  /** A byte of the form 10xxxxxx (the NUL test of the source is kept, though it never matters). */
  predicate IsContinuation(b: byte)
  {
    b != 0 && b / 0x40 == 2
  }

  /** The continuation loop of one record that began at `first`: from `next` on it
      takes continuation bytes while fewer than `len` bytes are read. Gives the
      index where it stops and the accumulated value. */
  function ReadContinuation(s: seq<byte>, first: nat, next: nat, len: nat, acc: nat): (r: (nat, nat))
    requires first < next <= first + len && next <= |s|
    ensures next <= r.0 <= first + len && r.0 <= |s|
    decreases first + len - next
  {
    if At(s, next) != 0 && At(s, next) / 0x40 == 2 && next - first < len then
      ReadContinuation(s, first, next + 1, len, acc * 0x40 + At(s, next) % 0x40)
    else
      (next, acc)
  }

  /** Decoding from index `first` of the C string `s`. */
  function DecodeFrom(s: seq<byte>, first: nat): Decoded
    requires first <= |s|
    decreases |s| - first
  {
    var b := At(s, first);
    if b == 0 then Decoded(true, [])
    else if LeadLength(b) == 0 then Decoded(false, [])
    else
      var r := ReadContinuation(s, first, first + 1, LeadLength(b), LeadBits(b));
      var rest := DecodeFrom(s, r.0);
      Decoded(rest.ok, [UnicodeChar(r.1, first, r.0 - first)] + rest.chars)
  }

  function Decode(s: seq<byte>): Decoded
  {
    DecodeFrom(s, 0)
  }

  /** `utf8_to_ucs4`: `src` is the C string (None when it is null) and
      `resultList` the list it appends to. */
  method Utf8ToUcs4(src: Option<seq<byte>>, resultList: seq<UnicodeChar>) returns (ok: bool, list: seq<UnicodeChar>)
    ensures src.None? ==> !ok && list == resultList
    ensures src.Some? ==> ok == Decode(src.value).ok && list == resultList + Decode(src.value).chars
  {
    if src.None? {
      return false, resultList;
    }
    var s := src.value;
    ghost var whole := Decode(s);
    list := resultList;
    var first := 0;
    while At(s, first) != 0
      invariant first <= |s|
      invariant whole.ok == DecodeFrom(s, first).ok
      invariant resultList + whole.chars == list + DecodeFrom(s, first).chars
      decreases |s| - first
    {
      var b := At(s, first);
      // the leading-byte classification of the source, shared with the spec
      var len := LeadLength(b);
      var result: nat := LeadBits(b);
      if len == 0 {
        assert DecodeFrom(s, first) == Decoded(false, []);
        return false, list;
      }
      ghost var r := ReadContinuation(s, first, first + 1, len, result);
      var next := first + 1;
      while At(s, next) != 0 && At(s, next) / 0x40 == 2 && next - first < len
        invariant first < next <= first + len && next <= |s|
        invariant ReadContinuation(s, first, next, len, result) == r
        decreases first + len - next
      {
        result := result * 0x40 + At(s, next) % 0x40;
        next := next + 1;
      }
      DecodeStep(s, first, next, result);
      var uc := UnicodeChar(result, first, next - first);
      ghost var rest := DecodeFrom(s, next);
      assert list + ([uc] + rest.chars) == (list + [uc]) + rest.chars;
      list := list + [uc];
      first := next;
    }
    ok := true;
  }

  /** One round of the decoder's outer loop, as the spec function takes it. */
  lemma DecodeStep(s: seq<byte>, first: nat, next: nat, cp: nat)
    requires first < |s| && At(s, first) != 0 && LeadLength(At(s, first)) != 0
    requires ReadContinuation(s, first, first + 1, LeadLength(At(s, first)), LeadBits(At(s, first))) == (next, cp)
    ensures next <= |s|
    ensures DecodeFrom(s, first) == Decoded(DecodeFrom(s, next).ok, [UnicodeChar(cp, first, next - first)] + DecodeFrom(s, next).chars)
  {
  }

  // ---------------------------------------------------------------------------
  // Shape of the decoded records

  /** Records lie back to back from byte `start`: each begins where the previous one ends. */
  predicate Consecutive(cs: seq<UnicodeChar>, start: int)
    decreases |cs|
  {
    cs == [] || (cs[0].offset == start && Consecutive(cs[1..], start + cs[0].length))
  }

  /** The number of bytes the records cover together. */
  function Span(cs: seq<UnicodeChar>): int
    decreases |cs|
  {
    if cs == [] then 0 else cs[0].length + Span(cs[1..])
  }

  /** The value a leading byte's payload `lead` and the continuation bytes
      `conts` spell: the lead bits on top, then six bits per continuation byte. */
  function Payload(lead: nat, conts: seq<byte>): nat
    decreases |conts|
  {
    if conts == [] then lead else Payload(lead, conts[..|conts| - 1]) * 0x40 + conts[|conts| - 1] % 0x40
  }

  /** What one record says about the bytes at its offset in `s`: it starts at a
      byte that is not the NUL terminator, that byte announces at least its
      length, the rest of it are continuation bytes inside `s`, it ended at the
      announced length or before a byte that does not continue it, and its value
      is the payload of those bytes, which fits in 21 bits (an ASCII byte stands
      for itself). */
  predicate RecordOf(s: seq<byte>, c: UnicodeChar)
  {
    0 <= c.offset && At(s, c.offset) != 0 && 1 <= c.length <= LeadLength(At(s, c.offset)) &&
    c.offset + c.length <= |s| &&
    (forall j :: c.offset < j < c.offset + c.length ==> IsContinuation(At(s, j))) &&
    (c.length == LeadLength(At(s, c.offset)) || !IsContinuation(At(s, c.offset + c.length))) &&
    c.codepoint == Payload(LeadBits(At(s, c.offset)), s[c.offset + 1..c.offset + c.length]) &&
    c.codepoint <= 0x1F_FFFF &&
    (At(s, c.offset) < 0x80 ==> c.codepoint == At(s, c.offset))
  }

  /** Every record is 1 to 4 bytes long and its value has at most 21 bits. */
  predicate Sized(cs: seq<UnicodeChar>)
  {
    forall i :: 0 <= i < |cs| ==> 1 <= cs[i].length <= 4 && cs[i].codepoint <= 0x1F_FFFF
  }

  /** The records Phase A works on: back to back from byte 0 inside `s`, and sized. */
  predicate WellFormed(cs: seq<UnicodeChar>, s: seq<byte>)
  {
    Consecutive(cs, 0) && Span(cs) <= |s| && Sized(cs)
  }

  function Pow64(k: nat): (p: nat)
    ensures p >= 1
  {
    if k == 0 then 1 else 0x40 * Pow64(k - 1)
  }

  lemma {:induction false} ReadContinuationFacts(s: seq<byte>, first: nat, next: nat, len: nat, acc: nat, bound: nat)
    requires first < next <= first + len && next <= |s|
    requires acc < bound
    requires forall j :: first < j < next ==> IsContinuation(At(s, j))
    ensures var r := ReadContinuation(s, first, next, len, acc);
      (forall j :: first < j < r.0 ==> IsContinuation(At(s, j))) &&
      (r.0 == first + len || !IsContinuation(At(s, r.0))) &&
      r.1 < bound * Pow64(first + len - next)
    decreases first + len - next
  {
    var k := first + len - next;
    if IsContinuation(At(s, next)) && next - first < len {
      var acc' := acc * 0x40 + At(s, next) % 0x40;
      assert acc' < bound * 0x40;
      ReadContinuationFacts(s, first, next + 1, len, acc', bound * 0x40);
      assert bound * 0x40 * Pow64(k - 1) == bound * Pow64(k);
    } else {
      assert bound <= bound * Pow64(k);
    }
  }

  /** The continuation loop accumulates the payload of the bytes it takes. */
  lemma {:induction false} ReadContinuationPayload(s: seq<byte>, first: nat, next: nat, len: nat, lead: nat)
    requires first < next <= first + len && next <= |s|
    ensures var r := ReadContinuation(s, first, next, len, Payload(lead, s[first + 1..next]));
      r.1 == Payload(lead, s[first + 1..r.0])
    decreases first + len - next
  {
    var acc := Payload(lead, s[first + 1..next]);
    if At(s, next) != 0 && At(s, next) / 0x40 == 2 && next - first < len {
      var conts := s[first + 1..next + 1];
      assert conts[..|conts| - 1] == s[first + 1..next];
      assert Payload(lead, conts) == acc * 0x40 + At(s, next) % 0x40;
      ReadContinuationPayload(s, first, next + 1, len, lead);
    }
  }

  /** The record that begins at `first` satisfies RecordOf. */
  lemma HeadRecord(s: seq<byte>, first: nat)
    requires first < |s| && At(s, first) != 0 && LeadLength(At(s, first)) != 0
    ensures var b := At(s, first);
      var r := ReadContinuation(s, first, first + 1, LeadLength(b), LeadBits(b));
      RecordOf(s, UnicodeChar(r.1, first, r.0 - first))
  {
    var b := At(s, first);
    var len := LeadLength(b);
    var bound := if len == 1 then 0x80 else if len == 2 then 0x20 else if len == 3 then 0x10 else 0x08;
    ReadContinuationFacts(s, first, first + 1, len, LeadBits(b), bound);
    assert s[first + 1..first + 1] == [];
    ReadContinuationPayload(s, first, first + 1, len, LeadBits(b));
  }

  /** Where the records of DecodeFrom lie and why decoding stopped. */
  lemma {:induction false} DecodeFromLayout(s: seq<byte>, first: nat)
    requires first <= |s|
    ensures var d := DecodeFrom(s, first);
      Consecutive(d.chars, first) && first + Span(d.chars) <= |s| &&
      (d.ok ==> At(s, first + Span(d.chars)) == 0) &&
      (!d.ok ==> At(s, first + Span(d.chars)) != 0 && LeadLength(At(s, first + Span(d.chars))) == 0)
    decreases |s| - first
  {
    var b := At(s, first);
    if b != 0 && LeadLength(b) != 0 {
      var r := ReadContinuation(s, first, first + 1, LeadLength(b), LeadBits(b));
      var c := UnicodeChar(r.1, first, r.0 - first);
      DecodeFromLayout(s, r.0);
      var rest := DecodeFrom(s, r.0);
      DecodeStep(s, first, r.0, r.1);
      var d := DecodeFrom(s, first);
      assert d.chars[1..] == rest.chars;
      assert first + Span(d.chars) == r.0 + Span(rest.chars);
    }
  }

  /** Each record of DecodeFrom satisfies RecordOf. */
  lemma {:induction false} DecodeFromRecords(s: seq<byte>, first: nat)
    requires first <= |s|
    ensures var d := DecodeFrom(s, first);
      forall i :: 0 <= i < |d.chars| ==> RecordOf(s, d.chars[i])
    decreases |s| - first
  {
    var b := At(s, first);
    if b != 0 && LeadLength(b) != 0 {
      var r := ReadContinuation(s, first, first + 1, LeadLength(b), LeadBits(b));
      var c := UnicodeChar(r.1, first, r.0 - first);
      HeadRecord(s, first);
      DecodeFromRecords(s, r.0);
      DecodeStep(s, first, r.0, r.1);
      RecordsCons(s, DecodeFrom(s, first).chars, c, DecodeFrom(s, r.0).chars);
    }
  }

  lemma RecordsCons(s: seq<byte>, cs: seq<UnicodeChar>, c: UnicodeChar, rest: seq<UnicodeChar>)
    requires cs == [c] + rest
    requires RecordOf(s, c) && forall i :: 0 <= i < |rest| ==> RecordOf(s, rest[i])
    ensures forall i :: 0 <= i < |cs| ==> RecordOf(s, cs[i])
  {
    forall i | 0 <= i < |cs|
      ensures RecordOf(s, cs[i])
    {
      if i > 0 {
        assert cs[i] == rest[i - 1];
      }
    }
  }

  /** Every record the decoder emits is one of the leading-byte classes applied to
      the bytes at its offset; the records lie back to back from byte 0; and the
      decoder stops at the NUL on success, or at a byte that can lead no
      sequence on failure, keeping the records decoded before it. */
  lemma DecodeShape(s: seq<byte>)
    ensures var d := Decode(s);
      Consecutive(d.chars, 0) && Span(d.chars) <= |s| &&
      (forall i :: 0 <= i < |d.chars| ==> RecordOf(s, d.chars[i])) &&
      (d.ok <==> At(s, Span(d.chars)) == 0) &&
      (!d.ok ==> LeadLength(At(s, Span(d.chars))) == 0)
  {
    DecodeFromLayout(s, 0);
    DecodeFromRecords(s, 0);
  }

  lemma DecodeWellFormed(s: seq<byte>)
    ensures WellFormed(Decode(s).chars, s)
  {
    DecodeShape(s);
    var cs := Decode(s).chars;
    forall i | 0 <= i < |cs|
      ensures 1 <= cs[i].length <= 4 && cs[i].codepoint <= 0x1F_FFFF
    {
      assert RecordOf(s, cs[i]);
    }
  }

  // ---------------------------------------------------------------------------
  // Encoder

  /** `(x & 0x3f) | 0x80`: a continuation byte carrying the low six bits of `x`. */
  function Cont(x: nat): byte
  {
    0x80 + x % 0x40
  }

  /** The bytes `ucs4_to_utf8` writes for `ucs`; as many as it returns. */
  function Encode(ucs: uint32): (bytes: seq<byte>)
    ensures |bytes| == if ucs <= 0x7F then 1
                       else if ucs <= 0x7FF then 2
                       else if ucs <= 0xFFFF then 3
                       else if ucs <= 0x1F_FFFF then 4
                       else if ucs <= 0x3FF_FFFF then 5
                       else if ucs <= 0x7FFF_FFFF then 6
                       else 0
  {
    if ucs <= 0x7F then
      [ucs]
    else if ucs <= 0x7FF then
      [0xC0 + ucs / 0x40 % 0x100, Cont(ucs)]
    else if ucs <= 0xFFFF then
      [0xE0 + ucs / 0x1000 % 0x10, Cont(ucs / 0x40), Cont(ucs)]
    else if ucs <= 0x1F_FFFF then
      [0xF0 + ucs / 0x4_0000 % 0x08, Cont(ucs / 0x1000), Cont(ucs / 0x40), Cont(ucs)]
    else if ucs <= 0x3FF_FFFF then
      [0xF8 + ucs / 0x100_0000 % 0x04, Cont(ucs / 0x4_0000), Cont(ucs / 0x1000), Cont(ucs / 0x40), Cont(ucs)]
    else if ucs <= 0x7FFF_FFFF then
      [0xFC + ucs / 0x4000_0000 % 0x02, Cont(ucs / 0x100_0000), Cont(ucs / 0x4_0000), Cont(ucs / 0x1000),
       Cont(ucs / 0x40), Cont(ucs)]
    else
      []
  }

  /** No byte of an encoding is NUL, except the encoding of 0 itself. */
  lemma EncodeNoNul(ucs: uint32)
    requires 0 < ucs
    ensures forall i :: 0 <= i < |Encode(ucs)| ==> Encode(ucs)[i] != 0
  {
  }

  /** `ucs4_to_utf8`: writes the encoding of `ucs` at the front of `utf8` and
      returns its length; the caller provides the room. */
  method Ucs4ToUtf8(utf8: array<byte>, ucs: uint32) returns (n: nat)
    requires utf8.Length >= |Encode(ucs)|
    modifies utf8
    ensures n == |Encode(ucs)|
    ensures utf8[..n] == Encode(ucs) && utf8[n..] == old(utf8[n..])
  {
    if ucs <= 0x7F {
      utf8[0] := ucs;
      n := 1;
    } else if ucs <= 0x7FF {
      utf8[0] := 0xC0 + ucs / 0x40 % 0x100;
      utf8[1] := Cont(ucs);
      n := 2;
    } else if ucs <= 0xFFFF {
      utf8[0] := 0xE0 + ucs / 0x1000 % 0x10;
      utf8[1] := Cont(ucs / 0x40);
      utf8[2] := Cont(ucs);
      n := 3;
    } else if ucs <= 0x1F_FFFF {
      utf8[0] := 0xF0 + ucs / 0x4_0000 % 0x08;
      utf8[1] := Cont(ucs / 0x1000);
      utf8[2] := Cont(ucs / 0x40);
      utf8[3] := Cont(ucs);
      n := 4;
    } else if ucs <= 0x3FF_FFFF {
      utf8[0] := 0xF8 + ucs / 0x100_0000 % 0x04;
      utf8[1] := Cont(ucs / 0x4_0000);
      utf8[2] := Cont(ucs / 0x1000);
      utf8[3] := Cont(ucs / 0x40);
      utf8[4] := Cont(ucs);
      n := 5;
    } else if ucs <= 0x7FFF_FFFF {
      utf8[0] := 0xFC + ucs / 0x4000_0000 % 0x02;
      utf8[1] := Cont(ucs / 0x100_0000);
      utf8[2] := Cont(ucs / 0x4_0000);
      utf8[3] := Cont(ucs / 0x1000);
      utf8[4] := Cont(ucs / 0x40);
      utf8[5] := Cont(ucs);
      n := 6;
    } else {
      n := 0;
    }
  }

  lemma DivChain(x: nat)
    ensures x / 0x1000 == x / 0x40 / 0x40
    ensures x / 0x4_0000 == x / 0x40 / 0x40 / 0x40
  {
  }

  lemma EncodeTwo(ucs: uint32)
    requires 0x7F < ucs <= 0x7FF
    ensures var s := Encode(ucs);
      LeadLength(s[0]) == 2 && ReadContinuation(s, 0, 1, 2, LeadBits(s[0])) == (2, ucs)
  {
    var s := Encode(ucs);
    var q1 := ucs / 0x40;
    assert s == [0xC0 + q1, Cont(ucs)];
    assert LeadBits(s[0]) == q1;
    assert ReadContinuation(s, 0, 1, 2, q1) == ReadContinuation(s, 0, 2, 2, ucs);
  }

  lemma EncodeThree(ucs: uint32)
    requires 0x7FF < ucs <= 0xFFFF
    ensures var s := Encode(ucs);
      LeadLength(s[0]) == 3 && ReadContinuation(s, 0, 1, 3, LeadBits(s[0])) == (3, ucs)
  {
    var s := Encode(ucs);
    var q1 := ucs / 0x40;
    var q2 := q1 / 0x40;
    DivChain(ucs);
    assert s == [0xE0 + q2, Cont(q1), Cont(ucs)];
    assert LeadBits(s[0]) == q2;
    assert ReadContinuation(s, 0, 1, 3, q2) == ReadContinuation(s, 0, 2, 3, q1);
    assert ReadContinuation(s, 0, 2, 3, q1) == ReadContinuation(s, 0, 3, 3, ucs);
  }

  lemma EncodeFour(ucs: uint32)
    requires 0xFFFF < ucs <= 0x1F_FFFF
    ensures var s := Encode(ucs);
      LeadLength(s[0]) == 4 && ReadContinuation(s, 0, 1, 4, LeadBits(s[0])) == (4, ucs)
  {
    var s := Encode(ucs);
    var q1 := ucs / 0x40;
    var q2 := q1 / 0x40;
    var q3 := q2 / 0x40;
    DivChain(ucs);
    assert s == [0xF0 + q3, Cont(q2), Cont(q1), Cont(ucs)];
    assert LeadBits(s[0]) == q3;
    assert ReadContinuation(s, 0, 1, 4, q3) == ReadContinuation(s, 0, 2, 4, q2);
    assert ReadContinuation(s, 0, 2, 4, q2) == ReadContinuation(s, 0, 3, 4, q1);
    assert ReadContinuation(s, 0, 3, 4, q1) == ReadContinuation(s, 0, 4, 4, ucs);
  }

  /** Round trip: decoding what the encoder writes for a nonzero value of at most
      21 bits gives back exactly that value, as one record spanning all of it. */
  lemma DecodeEncode(ucs: uint32)
    requires 0 < ucs <= 0x1F_FFFF
    ensures Decode(Encode(ucs)) == Decoded(true, [UnicodeChar(ucs, 0, |Encode(ucs)|)])
  {
    var s := Encode(ucs);
    var n := |s|;
    if ucs <= 0x7F {
      assert ReadContinuation(s, 0, 1, 1, s[0]) == (1, ucs);
    } else if ucs <= 0x7FF {
      EncodeTwo(ucs);
    } else if ucs <= 0xFFFF {
      EncodeThree(ucs);
    } else {
      EncodeFour(ucs);
    }
    assert DecodeFrom(s, n) == Decoded(true, []);
  }

  /** The 5- and 6-byte legacy forms the encoder can write are refused by the
      decoder at their leading byte, before any record is emitted. */
  lemma DecodeRejectsLegacy(ucs: uint32)
    requires 0x1F_FFFF < ucs <= 0x7FFF_FFFF
    ensures Decode(Encode(ucs)) == Decoded(false, [])
  {
    var s := Encode(ucs);
    assert LeadLength(s[0]) == 0;
  }
}
