/**
 * The colour helpers of `color_util`: a colour is a `uint32_t` laid out as
 * 0xAARRGGBB; colour strings are `#rgb`, `#rrggbb` or `#aarrggbb`, with or
 * without the `#`. A `std::string` is the sequence of its bytes, and its
 * lengths and indices count bytes.
 *
 * Shifts are written as multiplication and division by powers of two, a
 * mask as `%`, and `|` of fields that do not overlap as `+`.
 */
module ColorUtil {
  import opened Ints

  /** A `uint16_t`. */
  type uint16 = x: int | 0 <= x < 0x1_0000

  // ---------------------------------------------------------------------------
  // Channels
  // ---------------------------------------------------------------------------

  /** Byte `k` of `value`, counting from the least significant: the `uint8_t`
      that `value >> 8 * k` is narrowed to. */
  function ByteOf(value: uint32, k: nat): byte
    requires k < 4
  {
    (value / Pow2(8 * k)) % 0x100
  }

  /** `1 << n`. */
  function Pow2(n: nat): (p: nat)
    ensures p >= 1
  {
    if n == 0 then 1 else 2 * Pow2(n - 1)
  }

  /** The 8-bit channel: `c << 8 / 0xff` parses as `c << (8 / 0xff)`, a shift by 0. */
  function Narrow(c: byte): byte
  {
    c * Pow2(8 / 0xff)
  }

  /** The 16-bit channel: `c << 8 | c << 8 / 0xff`, the byte in both halves. */
  function Widen(c: byte): uint16
  {
    c * Pow2(8) + c * Pow2(8 / 0xff)
  }

  /** `alpha_channel<uint8_t>`: byte 3 of the value, since `c << 8 / 0xff`
      leaves the byte as it is. */
  function AlphaChannel(value: uint32): (a: byte)
    ensures a == value / 0x100_0000
  {
    Pow2Values();
    Narrow(ByteOf(value, 3))
  }

  /** `red_channel<uint8_t>`: byte 2 of the value. */
  function RedChannel(value: uint32): (r: byte)
    ensures r == value / 0x1_0000 % 0x100
  {
    Pow2Values();
    Narrow(ByteOf(value, 2))
  }

  /** `green_channel<uint8_t>`: byte 1 of the value. */
  function GreenChannel(value: uint32): (g: byte)
    ensures g == value / 0x100 % 0x100
  {
    Pow2Values();
    Narrow(ByteOf(value, 1))
  }

  /** `blue_channel<uint8_t>`: byte 0 of the value. */
  function BlueChannel(value: uint32): (b: byte)
    ensures b == value % 0x100
  {
    Pow2Values();
    Narrow(ByteOf(value, 0))
  }

  /** `alpha_channel<uint16_t>`: the 8-bit channel in both bytes, so 0xff
      becomes 0xffff. */
  function AlphaChannel16(value: uint32): (a: uint16)
    ensures a == AlphaChannel(value) * 257
  {
    Pow2Values();
    Widen(ByteOf(value, 3))
  }

  /** `red_channel<uint16_t>`. */
  function RedChannel16(value: uint32): (r: uint16)
    ensures r == RedChannel(value) * 257
  {
    Pow2Values();
    Widen(ByteOf(value, 2))
  }

  /** `green_channel<uint16_t>`. */
  function GreenChannel16(value: uint32): (g: uint16)
    ensures g == GreenChannel(value) * 257
  {
    Pow2Values();
    Widen(ByteOf(value, 1))
  }

  /** `blue_channel<uint16_t>`. */
  function BlueChannel16(value: uint32): (b: uint16)
    ensures b == BlueChannel(value) * 257
  {
    Pow2Values();
    Widen(ByteOf(value, 0))
  }

  /** `(a << 24) | (r << 16) | (g << 8) | b`. */
  function Pack(a: byte, r: byte, g: byte, b: byte): uint32
  {
    a * 0x100_0000 + r * 0x1_0000 + g * 0x100 + b
  }

  lemma Pow2Values()
    ensures Pow2(0) == 1 && Pow2(8) == 0x100 && Pow2(16) == 0x1_0000 && Pow2(24) == 0x100_0000
  {
    assert Pow2(8) == 0x100 by {
      assert Pow2(4) == 16;
    }
    assert Pow2(16) == 0x1_0000 by {
      assert Pow2(12) == 0x1000;
    }
    assert Pow2(24) == 0x100_0000 by {
      assert Pow2(20) == 0x10_0000;
    }
  }

  /** A colour is its four channels packed back together, and packing four
      bytes gives them back as channels. */
  lemma ChannelsPack(value: uint32, a: byte, r: byte, g: byte, b: byte)
    ensures Pack(AlphaChannel(value), RedChannel(value), GreenChannel(value), BlueChannel(value)) == value
    ensures AlphaChannel(Pack(a, r, g, b)) == a && RedChannel(Pack(a, r, g, b)) == r
    ensures GreenChannel(Pack(a, r, g, b)) == g && BlueChannel(Pack(a, r, g, b)) == b
  {
    Unpack(value);
    PackBytes(a, r, g, b);
  }

  lemma Unpack(v: uint32)
    ensures v == v / 0x100_0000 * 0x100_0000 + v / 0x1_0000 % 0x100 * 0x1_0000 + v / 0x100 % 0x100 * 0x100 + v % 0x100
  {
    var q1 := v / 0x100;
    var q2 := q1 / 0x100;
    assert v == q1 * 0x100 + v % 0x100;
    assert q1 == q2 * 0x100 + q1 % 0x100;
    assert q2 == q2 / 0x100 * 0x100 + q2 % 0x100;
    DivUnique(v, 0x1_0000, q2, q1 % 0x100 * 0x100 + v % 0x100);
    DivUnique(v, 0x100_0000, q2 / 0x100, q2 % 0x100 * 0x1_0000 + q1 % 0x100 * 0x100 + v % 0x100);
  }

  lemma PackBytes(a: byte, r: byte, g: byte, b: byte)
    ensures Pack(a, r, g, b) / 0x100_0000 == a
    ensures Pack(a, r, g, b) / 0x1_0000 % 0x100 == r
    ensures Pack(a, r, g, b) / 0x100 % 0x100 == g
    ensures Pack(a, r, g, b) % 0x100 == b
  {
    var v := Pack(a, r, g, b);
    DivUnique(v, 0x100_0000, a, r * 0x1_0000 + g * 0x100 + b);
    DivUnique(v, 0x1_0000, a * 0x100 + r, g * 0x100 + b);
    DivUnique(a * 0x100 + r, 0x100, a, r);
    DivUnique(v, 0x100, a * 0x1_0000 + r * 0x100 + g, b);
    DivUnique(a * 0x1_0000 + r * 0x100 + g, 0x100, a * 0x100 + r, g);
  }

  /** Euclidean division is unique. */
  lemma DivUnique(x: int, d: int, q: int, m: int)
    requires 0 < d && 0 <= m < d && x == q * d + m
    ensures x / d == q && x % d == m
  {
    var q', m' := x / d, x % d;
    assert (q - q') * d == m' - m by {
      assert (q - q') * d == q * d - q' * d;
    }
    if q' != q {
      var k := if q > q' then q - q' else q' - q;
      MulAtLeast(k, d);
    }
  }

  lemma MulAtLeast(k: int, d: int)
    requires 1 <= k && 0 < d
    ensures k * d >= d
  {
    assert k * d == (k - 1) * d + d;
  }

  // ---------------------------------------------------------------------------
  // Premultiplication
  // ---------------------------------------------------------------------------

  /** `premultiply_alpha`: each colour channel scaled by alpha / 255, alpha kept. */
  function PremultiplyAlpha(value: uint32): (p: uint32)
    ensures p / 0x100_0000 == value / 0x100_0000
    ensures p <= value
  {
    var a := AlphaChannel(value);
    var r, g, b := RedChannel(value), GreenChannel(value), BlueChannel(value);
    ChannelsPack(value, a, Scale(r, a), Scale(g, a), Scale(b, a));
    PackBelow(a, Scale(r, a), Scale(g, a), Scale(b, a), r, g, b);
    Pack(a, Scale(r, a), Scale(g, a), Scale(b, a))
  }

  /** Lowering channels never raises the packed value. */
  lemma PackBelow(a: byte, r: byte, g: byte, b: byte, r0: byte, g0: byte, b0: byte)
    requires r <= r0 && g <= g0 && b <= b0
    ensures Pack(a, r, g, b) <= Pack(a, r0, g0, b0)
  {
  }

  /** `c * a / 255`, in `int` after promotion. */
  function Scale(c: byte, a: byte): (s: byte)
    ensures s <= c
  {
    ScaleBound(c, a);
    c * a / 255
  }

  /** Premultiplying keeps alpha and scales each colour channel, never
      brightening it; an opaque colour is unchanged and a fully transparent one
      becomes 0. */
  lemma PremultiplyBounds(value: uint32)
    ensures AlphaChannel(PremultiplyAlpha(value)) == AlphaChannel(value)
    ensures RedChannel(PremultiplyAlpha(value)) == Scale(RedChannel(value), AlphaChannel(value)) <= RedChannel(value)
    ensures GreenChannel(PremultiplyAlpha(value)) == Scale(GreenChannel(value), AlphaChannel(value)) <= GreenChannel(value)
    ensures BlueChannel(PremultiplyAlpha(value)) == Scale(BlueChannel(value), AlphaChannel(value)) <= BlueChannel(value)
    ensures AlphaChannel(value) == 255 ==> PremultiplyAlpha(value) == value
    ensures AlphaChannel(value) == 0 ==> PremultiplyAlpha(value) == 0
  {
    var a, r, g, b := AlphaChannel(value), RedChannel(value), GreenChannel(value), BlueChannel(value);
    ScaleBound(r, a);
    ScaleBound(g, a);
    ScaleBound(b, a);
    ChannelsPack(value, a, Scale(r, a), Scale(g, a), Scale(b, a));
  }

  lemma ScaleBound(c: byte, a: byte)
    ensures 0 <= c * a / 255 <= c
    ensures a == 255 ==> c * a / 255 == c
    ensures a == 0 ==> c * a / 255 == 0
  {
    assert 0 <= c * a <= c * 255;
  }

  // ---------------------------------------------------------------------------
  // Colour strings
  // ---------------------------------------------------------------------------

  /** The bytes of `#` and `f`. */
  const Hash: byte := 0x23
  const LowerF: byte := 0x66

  /** The canonical `#aarrggbb` form of a colour string, or [] when it has none:
      what follows an optional leading `#` must be 3, 6 or 8 bytes, and a
      missing alpha is `ff`. */
  function Canonical(h: seq<byte>): seq<byte>
  {
    var body := if |h| > 0 && h[0] == Hash then h[1..] else h;
    if |body| == 3 then [Hash, LowerF, LowerF, body[0], body[0], body[1], body[1], body[2], body[2]]
    else if |body| == 6 then [Hash, LowerF, LowerF] + body
    else if |body| == 8 then [Hash] + body
    else []
  }

  /** `parse_hex`: puts a `#` in front when the first byte is not one (the
      first byte of an empty string reads as the NUL terminator), widens
      `#rgb` to `#rrggbb`, prefixes `#rrggbb` with the alpha `ff`, and gives the
      empty string for anything that is then not 9 bytes long. */
  method ParseHex(hex0: seq<byte>) returns (hex: seq<byte>)
    ensures hex == Canonical(hex0)
  {
    hex := hex0;
    var first := if |hex| > 0 then hex[0] else 0;
    if first != Hash {
      hex := [Hash] + hex;
    }
    if |hex| == 4 {
      hex := [Hash, hex[1], hex[1], hex[2], hex[2], hex[3], hex[3]];
    }
    if |hex| == 7 {
      hex := [Hash, LowerF, LowerF] + hex[1..];
    }
    if |hex| != 9 {
      return [];
    }
  }

  /** The forms of a canonical colour string. */
  lemma CanonicalForms(h: seq<byte>)
    ensures Canonical(h) == [] || (|Canonical(h)| == 9 && Canonical(h)[0] == Hash)
    ensures Canonical(h) != [] <==> (if |h| > 0 && h[0] == Hash then |h| - 1 else |h|) in {3, 6, 8}
    ensures |h| == 9 && h[0] == Hash ==> Canonical(h) == h
  {
    if |h| == 9 && h[0] == Hash {
      assert [Hash] + h[1..] == h;
    }
  }

  /** Canonicalising twice is canonicalising once. */
  lemma CanonicalIdempotent(h: seq<byte>)
    ensures Canonical(Canonical(h)) == Canonical(h)
  {
    CanonicalForms(h);
    CanonicalForms(Canonical(h));
  }

  /** The value of an ASCII hexadecimal digit, or -1. */
  function HexDigit(c: byte): int
  {
    if 0x30 <= c <= 0x39 then c - 0x30
    else if 0x61 <= c <= 0x66 then c - 0x61 + 10
    else if 0x41 <= c <= 0x46 then c - 0x41 + 10
    else -1
  }

  /** `isspace` in the C locale: space, `\t`, `\n`, `\v`, `\f` and `\r`. */
  predicate IsSpace(c: byte)
  {
    c == 0x20 || 0x09 <= c <= 0x0D
  }

  /** The digits `strtoul` reads, folded into `acc`: as many as are hexadecimal. */
  function HexRun(s: seq<byte>, acc: nat): nat
    decreases |s|
  {
    if s != [] && HexDigit(s[0]) >= 0 then HexRun(s[1..], acc * 16 + HexDigit(s[0])) else acc
  }

  /** `strtoul(s, nullptr, 16)` for a 64-bit `unsigned long`, on strings too short
      to overflow: leading white space, an optional sign, an optional `0x`
      before a digit, then hexadecimal digits; a `-` negates modulo 2^64. The
      NUL terminator, or an embedded NUL, is not a digit and ends the run. */
  function StrToUL16(s: seq<byte>): nat
    decreases |s|
  {
    if s != [] && IsSpace(s[0]) then StrToUL16(s[1..])
    else
      var neg := s != [] && s[0] == 0x2D;
      var t := if s != [] && (s[0] == 0x2D || s[0] == 0x2B) then s[1..] else s;
      var u := if |t| >= 3 && t[0] == 0x30 && (t[1] == 0x78 || t[1] == 0x58) && HexDigit(t[2]) >= 0 then t[2..] else t;
      var v := HexRun(u, 0);
      if neg then (0x1_0000_0000_0000_0000 - v) % 0x1_0000_0000_0000_0000 else v
  }

  /** `parse`: the colour a string names, or `fallback` when `parse_hex` gives the empty string.
      The digits are read by `strtoul` and the `unsigned long` is narrowed to 32 bits. */
  method Parse(hex0: seq<byte>, fallback: uint32) returns (color: uint32)
    ensures Canonical(hex0) == [] ==> color == fallback
    ensures Canonical(hex0) != [] ==> color == StrToUL16(Canonical(hex0)[1..]) % 0x1_0000_0000
  {
    var hex := ParseHex(hex0);
    if hex == [] {
      return fallback;
    }
    color := StrToUL16(hex[1..]) % 0x1_0000_0000;
  }

  /** `16 * hi + lo` for two hexadecimal digits. */
  function HexByte(hi: byte, lo: byte): byte
    requires HexDigit(hi) >= 0 && HexDigit(lo) >= 0
  {
    HexDigit(hi) * 16 + HexDigit(lo)
  }

  lemma HexRunPair(s: seq<byte>, acc: nat)
    requires |s| >= 2 && HexDigit(s[0]) >= 0 && HexDigit(s[1]) >= 0
    ensures HexRun(s, acc) == HexRun(s[2..], acc * 0x100 + HexByte(s[0], s[1]))
  {
    assert s[1..][1..] == s[2..];
  }

  /** A canonical string of hexadecimal digits parses to the colour whose
      channels its digit pairs spell. */
  lemma ParseDigits(h: seq<byte>)
    requires |h| == 9 && h[0] == Hash
    requires forall i :: 1 <= i < 9 ==> HexDigit(h[i]) >= 0
    ensures Canonical(h) == h
    ensures StrToUL16(h[1..]) == Pack(HexByte(h[1], h[2]), HexByte(h[3], h[4]), HexByte(h[5], h[6]), HexByte(h[7], h[8]))
  {
    CanonicalForms(h);
    StrToULDigits(h[1..]);
    HexRunColour(h[1..]);
  }

  /** Eight hexadecimal digits are read as they stand: no white space, sign or
      `0x` to skip. */
  lemma StrToULDigits(s: seq<byte>)
    requires |s| == 8 && forall i :: 0 <= i < 8 ==> HexDigit(s[i]) >= 0
    ensures StrToUL16(s) == HexRun(s, 0)
  {
    assert HexDigit(s[0]) >= 0 && HexDigit(s[1]) >= 0;
  }

  /** Eight hexadecimal digits read as one number are four bytes packed. */
  lemma HexRunColour(s: seq<byte>)
    requires |s| == 8 && forall i :: 0 <= i < 8 ==> HexDigit(s[i]) >= 0
    ensures HexRun(s, 0) == Pack(HexByte(s[0], s[1]), HexByte(s[2], s[3]), HexByte(s[4], s[5]), HexByte(s[6], s[7]))
  {
    var a: nat, r: nat, g: nat := HexByte(s[0], s[1]), HexByte(s[2], s[3]), HexByte(s[4], s[5]);
    HexRunPair(s, 0);
    HexRunPair(s[2..], a);
    assert s[2..][2..] == s[4..];
    HexRunPair(s[4..], a * 0x100 + r);
    assert s[4..][2..] == s[6..];
    HexRunPair(s[6..], (a * 0x100 + r) * 0x100 + g);
    assert s[6..][2..] == [];
  }

  // ---------------------------------------------------------------------------
  // Shortening
  // ---------------------------------------------------------------------------

  /** The shortest form of a colour string: an `ff` alpha of a 9-byte
      string is dropped, and a 7-byte string whose digit pairs repeat
      becomes `#rgb`. */
  function Shortest(h: seq<byte>): seq<byte>
  {
    var g := if |h| == 9 && h[1] == LowerF && h[2] == LowerF then [h[0]] + h[3..] else h;
    if |g| == 7 && g[1] == g[2] && g[3] == g[4] && g[5] == g[6] then [Hash, g[1], g[3], g[5]] else g
  }

  /** `simplify_hex`: erases an `ff` alpha, then collapses repeated pairs. */
  method SimplifyHex(hex0: seq<byte>) returns (hex: seq<byte>)
    ensures hex == Shortest(hex0)
  {
    hex := hex0;
    if |hex| == 9 && hex[1] == LowerF && hex[2] == LowerF {
      hex := hex[..1] + hex[3..];
    }
    if |hex| == 7 {
      if hex[1] == hex[2] && hex[3] == hex[4] && hex[5] == hex[6] {
        hex := [Hash, hex[1], hex[3], hex[5]];
      }
    }
  }

  /** Shortening a canonical colour string loses nothing: `parse_hex` gives it back. */
  lemma ShortestRoundTrip(h: seq<byte>)
    requires |h| == 9 && h[0] == Hash
    ensures Canonical(Shortest(h)) == h
    ensures |Shortest(h)| in {4, 7, 9}
  {
    if h[1] == LowerF && h[2] == LowerF {
      var g := [h[0]] + h[3..];
      if g[1] == g[2] && g[3] == g[4] && g[5] == g[6] {
        assert [Hash, LowerF, LowerF, g[1], g[1], g[3], g[3], g[5], g[5]] == h;
      } else {
        assert [Hash, LowerF, LowerF] + g[1..] == h;
      }
    } else {
      assert [Hash] + h[1..] == h;
    }
  }

  /** Shortening never lengthens, and leaves alone a string it has no rule for. */
  lemma ShortestShape(h: seq<byte>)
    ensures |Shortest(h)| <= |h|
    ensures |h| != 9 && |h| != 7 ==> Shortest(h) == h
    ensures |h| == 9 && !(h[1] == LowerF && h[2] == LowerF) ==> Shortest(h) == h
  {
  }
}
