/**
 String contents: the escapes of section 7 of RFC 8259 as functions on bytes. `Escape` is what
 the writer emits, `Unescape` what src/json_token.c decodes, UTF-16 surrogate pairs included.
 */
module JsonStrings {
  import opened Common
  import opened JsonLexical

  // ---------------------------------------------------------------- UTF-8, section 3 of RFC 3629

  predicate IsScalarValue(cp: nat) {
    cp < 0xD800 || 0xE000 <= cp < 0x11_0000
  }

  type ScalarValue = cp: nat | IsScalarValue(cp)

  /** encode_utf8. The masks of the source touch disjoint bits, so `|` is written as a sum. */
  function EncodeUtf8(cp: nat): (u: bytes)
    requires cp < 0x11_0000
    ensures 1 <= |u| <= 4
  {
    if cp < 0x80 then [cp]
    else if cp < 0x800 then [0xC0 + cp / 0x40, 0x80 + cp % 0x40]
    else if cp < 0x1_0000 then [0xE0 + cp / 0x1000, 0x80 + cp / 0x40 % 0x40, 0x80 + cp % 0x40]
    else [0xF0 + cp / 0x4_0000, 0x80 + cp / 0x1000 % 0x40, 0x80 + cp / 0x40 % 0x40, 0x80 + cp % 0x40]
  }

  predicate IsContinuation(c: byte) {
    0x80 <= c < 0xC0
  }

  datatype Decoded = Decoded(scalar: ScalarValue, size: nat)

  /** The payload of a byte without its tag bits. */
  function Payload(c: byte, tag: nat): int {
    c - tag
  }

  /** The strict decoder of RFC 3629: no overlong form, no surrogate, nothing above 10FFFF. */
  function DecodeUtf8(s: bytes): (r: Option<Decoded>)
    ensures r.Some? ==> 0 < r.value.size <= |s|
  {
    if s == [] then None
    else if s[0] < 0x80 then Some(Decoded(s[0], 1))
    else if 0xC2 <= s[0] < 0xE0 then
      if |s| < 2 || !IsContinuation(s[1]) then None
      else Some(Decoded(Payload(s[0], 0xC0) * 0x40 + Payload(s[1], 0x80), 2))
    else if 0xE0 <= s[0] < 0xF0 then
      if |s| < 3 || !IsContinuation(s[1]) || !IsContinuation(s[2]) then None
      else
        var cp := Payload(s[0], 0xE0) * 0x1000 + Payload(s[1], 0x80) * 0x40 + Payload(s[2], 0x80);
        if cp < 0x800 || !IsScalarValue(cp) then None else Some(Decoded(cp, 3))
    else if 0xF0 <= s[0] < 0xF5 then
      if |s| < 4 || !IsContinuation(s[1]) || !IsContinuation(s[2]) || !IsContinuation(s[3]) then None
      else
        var cp := Payload(s[0], 0xF0) * 0x4_0000 + Payload(s[1], 0x80) * 0x1000
                  + Payload(s[2], 0x80) * 0x40 + Payload(s[3], 0x80);
        if cp < 0x1_0000 || !IsScalarValue(cp) then None else Some(Decoded(cp, 4))
    else None
  }

  lemma {:induction false} SixBitGroups(cp: nat)
    ensures cp == cp / 0x1000 * 0x1000 + cp / 0x40 % 0x40 * 0x40 + cp % 0x40
    ensures cp == cp / 0x4_0000 * 0x4_0000 + cp / 0x1000 % 0x40 * 0x1000 + cp / 0x40 % 0x40 * 0x40 + cp % 0x40
  {
    var a := cp / 0x40;
    var b := a / 0x40;
    assert b == cp / 0x1000 && b / 0x40 == cp / 0x4_0000;
  }

  /** The strict decoder reads every encoded scalar value back, and nothing of what follows. */
  lemma {:induction false} Utf8RoundTrip(cp: nat, rest: bytes)
    requires IsScalarValue(cp)
    ensures DecodeUtf8(EncodeUtf8(cp) + rest) == Some(Decoded(cp, |EncodeUtf8(cp)|))
  {
    var u := EncodeUtf8(cp);
    var s := u + rest;
    SixBitGroups(cp);
    assert s[0] == u[0];
    if cp >= 0x80 {
      assert s[1] == u[1];
    }
    if cp >= 0x800 {
      assert s[2] == u[2];
    }
    if cp >= 0x1_0000 {
      assert s[3] == u[3];
    }
  }

  // ---------------------------------------------------------------- unescaping

  /** hex_value: the value of a hex digit, -1 for another byte. */
  function HexValue(c: byte): (v: int)
    ensures v >= 0 <==> IsHexDigit(c)
    ensures v < 16
  {
    if DIGIT_0 <= c <= DIGIT_9 then c - DIGIT_0
    else if 0x61 <= c <= 0x66 then c - 0x61 + 10
    else if 0x41 <= c <= 0x46 then c - 0x41 + 10
    else -1
  }

  /** The value of four hex digits at the head of `s`. */
  function Hex4(s: bytes): (r: Option<nat>)
    ensures r.Some? ==> r.value < 0x1_0000
    ensures r.Some? <==> |s| >= 4 && IsHexDigit(s[0]) && IsHexDigit(s[1]) && IsHexDigit(s[2]) && IsHexDigit(s[3])
  {
    if |s| < 4 || HexValue(s[0]) < 0 || HexValue(s[1]) < 0 || HexValue(s[2]) < 0 || HexValue(s[3]) < 0 then None
    else Some(((HexValue(s[0]) * 16 + HexValue(s[1])) * 16 + HexValue(s[2])) * 16 + HexValue(s[3]))
  }

  function SimpleEscapeValue(e: byte): Option<byte> {
    if e == QUOTE || e == BACKSLASH || e == SLASH then Some(e)
    else if e == 0x62 then Some(BACKSPACE)
    else if e == 0x66 then Some(FORM_FEED)
    else if e == 0x6E then Some(LINE_FEED)
    else if e == 0x72 then Some(CARRIAGE_RETURN)
    else if e == 0x74 then Some(TAB)
    else None
  }

  predicate IsHighSurrogate(u: nat) {
    0xD800 <= u <= 0xDBFF
  }

  predicate IsLowSurrogate(u: nat) {
    0xDC00 <= u <= 0xDFFF
  }

  function PairValue(high: nat, low: nat): nat
    requires IsHighSurrogate(high) && IsLowSurrogate(low)
  {
    0x1_0000 + (high - 0xD800) * 0x400 + (low - 0xDC00)
  }

  /** `size` source bytes that stand for the bytes `out`. */
  datatype Piece = Piece(size: nat, out: bytes)

  /** The plain byte, escape or surrogate pair at the head of `s`. */
  function FirstPiece(s: bytes): (r: Option<Piece>)
    requires s != []
    ensures r.Some? ==> 0 < r.value.size <= |s| && |r.value.out| <= r.value.size && r.value.out != []
  {
    if s[0] != BACKSLASH then Some(Piece(1, [s[0]]))
    else if |s| < 2 then None
    else if SimpleEscapeValue(s[1]).Some? then Some(Piece(2, [SimpleEscapeValue(s[1]).value]))
    else if s[1] != 0x75 then None
    else
      match Hex4(s[2..])
      case None => None
      case Some(unit) =>
        if IsHighSurrogate(unit) then
          if |s| < 12 || s[6] != BACKSLASH || s[7] != 0x75 then None
          else
            match Hex4(s[8..])
            case None => None
            case Some(low) =>
              if IsLowSurrogate(low) then Some(Piece(12, EncodeUtf8(PairValue(unit, low)))) else None
        else if IsLowSurrogate(unit) then None
        else Some(Piece(6, EncodeUtf8(unit)))
  }

  function Prepend(out: bytes, r: Option<bytes>): Option<bytes> {
    if r.Some? then Some(out + r.value) else None
  }

  /** The bytes a string body stands for; None when an escape is malformed or a surrogate is unpaired. */
  function Unescape(s: bytes): (r: Option<bytes>)
    decreases |s|
    ensures r.Some? ==> |r.value| <= |s| && (s != [] ==> r.value != [])
  {
    if s == [] then Some([])
    else
      match FirstPiece(s)
      case None => None
      case Some(piece) => Prepend(piece.out, Unescape(s[piece.size..]))
  }

  /** A piece does not depend on what follows it. */
  lemma {:induction false} FirstPieceExtends(a: bytes, b: bytes)
    requires a != [] && FirstPiece(a).Some?
    ensures FirstPiece(a + b) == FirstPiece(a)
    ensures (a + b)[FirstPiece(a).value.size..] == a[FirstPiece(a).value.size..] + b
  {
    if a[0] == BACKSLASH && a[1] == 0x75 {
      assert Hex4((a + b)[2..]) == Hex4(a[2..]);
      if |a| >= 12 {
        assert Hex4((a + b)[8..]) == Hex4(a[8..]);
      }
    }
  }

  lemma {:induction false} PrependPrepend(a: bytes, b: bytes, r: Option<bytes>)
    ensures Prepend(a, Prepend(b, r)) == Prepend(a + b, r)
  {
    if r.Some? {
      assert a + (b + r.value) == a + b + r.value;
    }
  }

  /** Unescaping distributes over a concatenation whose first part is complete. */
  lemma {:induction false} UnescapeConcat(a: bytes, b: bytes)
    requires Unescape(a).Some?
    ensures Unescape(a + b) == Prepend(Unescape(a).value, Unescape(b))
    decreases |a|
  {
    if a == [] {
      assert a + b == b;
      assert forall v: bytes :: [] + v == v;
    } else {
      var piece := FirstPiece(a).value;
      FirstPieceExtends(a, b);
      UnescapeConcat(a[piece.size..], b);
      PrependPrepend(piece.out, Unescape(a[piece.size..]).value, Unescape(b));
    }
  }

  lemma {:induction false} UnescapePlain(s: bytes)
    requires BACKSLASH !in s
    ensures Unescape(s) == Some(s)
    decreases |s|
  {
    if s != [] {
      UnescapePlain(s[1..]);
      assert [s[0]] + s[1..] == s;
    }
  }

  /** The unit at the head of `s` when it is a Unicode escape. */
  function EscapedUnit(s: bytes): (r: Option<nat>)
    ensures r.Some? <==> IsUnicodeEscape(s)
  {
    if IsUnicodeEscape(s) then Hex4(s[2..]) else None
  }

  /** Every high surrogate escape is followed by a low one, and no low one stands alone. */
  predicate SurrogatesPaired(s: bytes)
    decreases |s|
  {
    if UnitLength(s) == 0 then true
    else
      match EscapedUnit(s)
      case Some(unit) =>
        if IsHighSurrogate(unit) then
          EscapedUnit(s[6..]).Some? && IsLowSurrogate(EscapedUnit(s[6..]).value) && SurrogatesPaired(s[12..])
        else !IsLowSurrogate(unit) && SurrogatesPaired(s[6..])
      case None => SurrogatesPaired(s[UnitLength(s)..])
  }

  /** On a body the reader accepts, unescaping fails only for an unpaired surrogate. */
  lemma {:induction false} UnescapeDefined(s: bytes)
    requires IsBody(s)
    ensures Unescape(s).Some? <==> SurrogatesPaired(s)
    decreases |s|
  {
    if s != [] {
      var rest := s[UnitLength(s)..];
      if IsUnicodeEscape(s) && IsHighSurrogate(EscapedUnit(s).value) {
        assert |s| >= 12 ==> s[8..] == rest[2..];
        if EscapedUnit(rest).Some? {
          assert s[12..] == rest[6..];
          UnescapeDefined(s[12..]);
        }
      } else {
        UnescapeDefined(rest);
      }
    }
  }

  // ---------------------------------------------------------------- Unicode text

  const LOWER_DIGITS := "0123456789abcdef"
  const UPPER_DIGITS := "0123456789ABCDEF"

  /** The hex digits of the value `n`, by their places in the row of digits. */
  predicate IsHexDigitOf(c: byte, n: nat) {
    n < 16 && (c == LOWER_DIGITS[n] as int || c == UPPER_DIGITS[n] as int)
  }

  /** One `u` escape: section 7 of RFC 8259, each digit in either case. */
  predicate SpellsUnit(s: bytes, u: nat) {
    |s| == 6 && s[0] == '\\' as int && s[1] == 'u' as int
    && IsHexDigitOf(s[2], u / 0x1000) && IsHexDigitOf(s[3], u / 0x100 % 16)
    && IsHexDigitOf(s[4], u / 0x10 % 16) && IsHexDigitOf(s[5], u % 16)
  }

  /** `s` is a spelling of the scalar value by escapes: one, or two for a value above FFFF. */
  predicate Spells(s: bytes, cp: nat) {
    IsScalarValue(cp)
    && if cp < 0x1_0000 then SpellsUnit(s, cp)
       else |s| == 12 && SpellsUnit(s[..6], 0xD800 + (cp - 0x1_0000) / 0x400)
            && SpellsUnit(s[6..], 0xDC00 + (cp - 0x1_0000) % 0x400)
  }

  function Hex4Text(u: nat): bytes
    requires u < 0x1_0000
  {
    [BACKSLASH, 0x75, UpperHex(u / 0x1000), UpperHex(u / 0x100 % 16), UpperHex(u / 16 % 16), UpperHex(u % 16)]
  }

  /** Section 7 of RFC 8259: one `u` escape, or two for a value outside the Basic Multilingual Plane. */
  function ScalarEscape(cp: nat): bytes
    requires IsScalarValue(cp)
  {
    if cp < 0x1_0000 then Hex4Text(cp)
    else Hex4Text(0xD800 + (cp - 0x1_0000) / 0x400) + Hex4Text(0xDC00 + (cp - 0x1_0000) % 0x400)
  }

  lemma {:induction false} HexDigitValue(c: byte, n: nat)
    requires IsHexDigitOf(c, n)
    ensures IsHexDigit(c) && HexValue(c) == n
  {
  }

  lemma {:induction false} UpperHexIsDigit(n: nat)
    requires n < 16
    ensures IsHexDigitOf(UpperHex(n), n)
  {
  }

  lemma {:induction false} FourDigits(u: nat)
    requires u < 0x1_0000
    ensures ((u / 0x1000 * 16 + u / 0x100 % 16) * 16 + u / 0x10 % 16) * 16 + u % 16 == u
    ensures u / 0x1000 < 16
  {
    var a := u / 16;
    var b := a / 16;
    assert a % 16 == u / 16 % 16 && b == u / 0x100 && b / 16 == u / 0x1000;
  }

  lemma {:induction false} SpelledUnit(s: bytes, u: nat)
    requires SpellsUnit(s, u) && u < 0x1_0000
    ensures EscapedUnit(s) == Some(u)
  {
    hide IsHexDigitOf, HexValue, IsHexDigit;
    assert s[2..] == [s[2], s[3], s[4], s[5]];
    HexDigitValue(s[2], u / 0x1000);
    HexDigitValue(s[3], u / 0x100 % 16);
    HexDigitValue(s[4], u / 0x10 % 16);
    HexDigitValue(s[5], u % 16);
    FourDigits(u);
  }

  /** The digits of an escape spell its unit. */
  lemma {:induction false} UnitSpelled(s: bytes)
    requires |s| == 6 && EscapedUnit(s).Some?
    ensures SpellsUnit(s, EscapedUnit(s).value)
  {
    hide IsHexDigitOf, HexValue;
    assert s[2..] == [s[2], s[3], s[4], s[5]];
    ValueOfHexDigit(s[2]);
    ValueOfHexDigit(s[3]);
    ValueOfHexDigit(s[4]);
    ValueOfHexDigit(s[5]);
    DigitsOfFour(HexValue(s[2]), HexValue(s[3]), HexValue(s[4]), HexValue(s[5]));
  }

  lemma {:induction false} ValueOfHexDigit(c: byte)
    requires IsHexDigit(c)
    ensures 0 <= HexValue(c) < 16 && IsHexDigitOf(c, HexValue(c))
  {
  }

  lemma {:induction false} DigitsOfFour(a: nat, b: nat, c: nat, d: nat)
    requires a < 16 && b < 16 && c < 16 && d < 16
    ensures var u := ((a * 16 + b) * 16 + c) * 16 + d;
            u / 0x1000 == a && u / 0x100 % 16 == b && u / 0x10 % 16 == c && u % 16 == d
  {
  }

  lemma {:induction false} UnitIsSpelled(u: nat)
    requires u < 0x1_0000
    ensures SpellsUnit(Hex4Text(u), u)
  {
    hide IsHexDigitOf, UpperHex;
    FourDigits(u);
    UpperHexIsDigit(u / 0x1000);
    UpperHexIsDigit(u / 0x100 % 16);
    UpperHexIsDigit(u / 0x10 % 16);
    UpperHexIsDigit(u % 16);
  }

  lemma {:induction false} EveryScalarIsSpelled(cp: nat)
    requires IsScalarValue(cp)
    ensures Spells(ScalarEscape(cp), cp)
  {
    hide SpellsUnit, Hex4Text;
    if cp < 0x1_0000 {
      UnitIsSpelled(cp);
    } else {
      var high, low := 0xD800 + (cp - 0x1_0000) / 0x400, 0xDC00 + (cp - 0x1_0000) % 0x400;
      UnitIsSpelled(high);
      UnitIsSpelled(low);
      HexTextSize(high);
      HexTextSize(low);
      var s := ScalarEscape(cp);
      assert s[..6] == Hex4Text(high) && s[6..] == Hex4Text(low);
    }
  }

  lemma {:induction false} HexTextSize(u: nat)
    requires u < 0x1_0000
    ensures |Hex4Text(u)| == 6
  {
  }

  /** What the decoder makes of a spelling: a unit outside the surrogates, or a pair with the value. */
  lemma {:induction false} SpellingParts(s: bytes, cp: nat)
    requires Spells(s, cp)
    ensures cp < 0x1_0000 ==>
              EscapedUnit(s) == Some(cp) && |s| == 6 && !IsHighSurrogate(cp) && !IsLowSurrogate(cp)
    ensures cp >= 0x1_0000 ==>
              |s| == 12 && EscapedUnit(s[..6]).Some? && EscapedUnit(s[6..]).Some?
              && var high, low := EscapedUnit(s[..6]).value, EscapedUnit(s[6..]).value;
                 IsHighSurrogate(high) && IsLowSurrogate(low) && PairValue(high, low) == cp
  {
    hide SpellsUnit, EscapedUnit;
    if cp < 0x1_0000 {
      SpelledUnit(s, cp);
      UnitSize(s, cp);
    } else {
      SpelledUnit(s[..6], 0xD800 + (cp - 0x1_0000) / 0x400);
      SpelledUnit(s[6..], 0xDC00 + (cp - 0x1_0000) % 0x400);
    }
  }

  /** A pair that decodes is the spelling of its value. */
  lemma {:induction false} PairSpells(s: bytes) returns (cp: nat)
    requires |s| >= 12 && FirstPiece(s).Some? && FirstPiece(s).value.size == 12
    ensures cp >= 0x1_0000 && Spells(s[..12], cp)
  {
    hide SpellsUnit;
    var t := s[..12];
    assert t[..6][2..] == s[2..][..4] && t[6..][2..] == s[8..][..4];
    assert Hex4(t[..6][2..]) == Hex4(s[2..]) && Hex4(t[6..][2..]) == Hex4(s[8..]);
    var high, low := Hex4(s[2..]).value, Hex4(s[8..]).value;
    cp := PairValue(high, low);
    UnitSpelled(t[..6]);
    UnitSpelled(t[6..]);
    PairParts(high, low);
  }

  lemma {:induction false} PairParts(high: nat, low: nat)
    requires IsHighSurrogate(high) && IsLowSurrogate(low)
    ensures var cp := PairValue(high, low) - 0x1_0000;
            0 <= cp < 0x10_0000 && high == 0xD800 + cp / 0x400 && low == 0xDC00 + cp % 0x400
  {
  }

  lemma {:induction false} UnitSize(s: bytes, u: nat)
    requires SpellsUnit(s, u)
    ensures |s| == 6
  {
  }

  lemma {:induction false} SpellingUnescapes(s: bytes, cp: nat)
    requires Spells(s, cp)
    ensures Unescape(s) == Some(EncodeUtf8(cp))
  {
    hide Spells, EncodeUtf8;
    SpellingParts(s, cp);
    if cp >= 0x1_0000 {
      assert s[..6][2..] == s[2..][..4] && s[6..][2..] == s[8..];
      assert Hex4(s[2..]) == Hex4(s[..6][2..]);
      assert s[12..] == [];
    } else {
      assert s[6..] == [];
    }
    EmptyRight(EncodeUtf8(cp));
  }

  const ESCAPE_LETTERS := "\"\\/bfnrt"
  const ESCAPED_BYTES: bytes := [0x22, 0x5C, 0x2F, 0x08, 0x0C, 0x0A, 0x0D, 0x09]

  /** The two-byte escapes of section 7 of RFC 8259: these letters, with these values, and no others. */
  lemma {:induction false} LetterEscapes(e: byte)
    ensures forall k :: 0 <= k < 8 && e == ESCAPE_LETTERS[k] as int ==>
              IsSimpleEscape(e) && Unescape([0x5C, e]) == Some([ESCAPED_BYTES[k]])
    ensures IsSimpleEscape(e) <==> exists k :: 0 <= k < 8 && e == ESCAPE_LETTERS[k] as int
    ensures !IsSimpleEscape(e) ==> Unescape([0x5C, e]) == None
  {
    var s: bytes := [0x5C, e];
    assert s[2..] == [];
    assert ESCAPE_LETTERS[0] == '"' && ESCAPE_LETTERS[1] == '\\' && ESCAPE_LETTERS[2] == '/';
    assert ESCAPE_LETTERS[3] == 'b' && ESCAPE_LETTERS[4] == 'f' && ESCAPE_LETTERS[5] == 'n';
    assert ESCAPE_LETTERS[6] == 'r' && ESCAPE_LETTERS[7] == 't';
    if SimpleEscapeValue(e).Some? {
      EmptyRight([SimpleEscapeValue(e).value]);
      assert Unescape(s) == Some([SimpleEscapeValue(e).value]);
    }
  }

  function Concat(parts: seq<bytes>): bytes {
    if parts == [] then [] else parts[0] + Concat(parts[1..])
  }

  predicate SpellsText(parts: seq<bytes>, text: seq<ScalarValue>) {
    |parts| == |text| && forall i :: 0 <= i < |text| ==> Spells(parts[i], text[i])
  }

  function EncodeText(text: seq<ScalarValue>): bytes {
    if text == [] then [] else EncodeUtf8(text[0]) + EncodeText(text[1..])
  }

  function DecodeText(s: bytes): Option<seq<ScalarValue>>
    decreases |s|
  {
    if s == [] then Some([])
    else
      match DecodeUtf8(s)
      case None => None
      case Some(d) =>
        var rest := DecodeText(s[d.size..]);
        if rest.None? then None else Some([d.scalar] + rest.value)
  }

  /**
   Unicode text survives its escapes: however each scalar value is spelled, the body unescapes
   to the UTF-8 encoding of the text, and a strict UTF-8 decoder reads the text back.
   */
  lemma {:induction false} SpelledTextRoundTrip(parts: seq<bytes>, text: seq<ScalarValue>)
    requires SpellsText(parts, text)
    ensures Unescape(Concat(parts)) == Some(EncodeText(text))
    ensures DecodeText(EncodeText(text)) == Some(text)
    decreases |parts|
  {
    hide EncodeUtf8, DecodeUtf8, Spells;
    if parts != [] {
      var ps, ts := parts[1..], text[1..];
      SpelledTextRoundTrip(ps, ts);
      SpellingUnescapes(parts[0], text[0]);
      UnescapeConcat(parts[0], Concat(ps));
      var u, later := EncodeUtf8(text[0]), EncodeText(ts);
      Utf8RoundTrip(text[0], later);
      assert (u + later)[|u|..] == later;
      assert [text[0]] + ts == text;
    }
  }

  // ---------------------------------------------------------------- escaping

  function UpperHex(n: nat): byte
    requires n < 16
  {
    if n < 10 then n + DIGIT_0 else n + 0x41 - 10
  }

  function EscapeByte(c: byte): (r: bytes)
    ensures 1 <= |r| <= 6
  {
    if c == BACKSLASH || c == QUOTE then [BACKSLASH, c]
    else if c == BACKSPACE then [BACKSLASH, 0x62]
    else if c == FORM_FEED then [BACKSLASH, 0x66]
    else if c == LINE_FEED then [BACKSLASH, 0x6E]
    else if c == CARRIAGE_RETURN then [BACKSLASH, 0x72]
    else if c == TAB then [BACKSLASH, 0x74]
    else if c < SPACE then [BACKSLASH, 0x75, DIGIT_0, DIGIT_0, UpperHex(c / 16), UpperHex(c % 16)]
    else [c]
  }

  function Escape(v: bytes): (r: bytes)
    ensures |v| <= |r| <= 6 * |v|
  {
    if v == [] then [] else EscapeByte(v[0]) + Escape(v[1..])
  }

  predicate NeedsEscape(c: byte) {
    |EscapeByte(c)| != 1
  }

  lemma {:induction false} EscapeByteIsUnit(c: byte, rest: bytes)
    ensures UnitLength(EscapeByte(c) + rest) == |EscapeByte(c)|
    ensures FirstPiece(EscapeByte(c) + rest) == Some(Piece(|EscapeByte(c)|, [c]))
    ensures (EscapeByte(c) + rest)[|EscapeByte(c)|..] == rest
  {
    var s := EscapeByte(c) + rest;
    if |EscapeByte(c)| == 6 {
      assert s[2..][0] == DIGIT_0 && s[2..][1] == DIGIT_0;
      assert s[2..][2] == UpperHex(c / 16) && s[2..][3] == UpperHex(c % 16);
      assert Hex4(s[2..]) == Some(c);
    }
  }

  /**
   Escaping is invertible and its result is a string body: no raw quote and no raw control
   byte. It contains a backslash exactly when some byte needed an escape.
   */
  lemma {:induction false} EscapeInvertible(v: bytes)
    ensures Unescape(Escape(v)) == Some(v) && IsBody(Escape(v))
    ensures BACKSLASH in Escape(v) <==> exists i :: 0 <= i < |v| && NeedsEscape(v[i])
    decreases |v|
  {
    hide EscapeByte, FirstPiece, UnitLength;
    if v != [] {
      var t := v[1..];
      EscapeInvertible(t);
      EscapeByteIsUnit(v[0], Escape(t));
      EscapeByteMarks(v[0]);
      assert [v[0]] + t == v;
      if NeedsEscape(v[0]) {
        assert exists i :: 0 <= i < |v| && NeedsEscape(v[i]);
      } else if i :| 0 <= i < |t| && NeedsEscape(t[i]) {
        assert NeedsEscape(v[i + 1]);
      }
    }
  }

  lemma {:induction false} EscapeByteMarks(c: byte)
    ensures BACKSLASH in EscapeByte(c) <==> NeedsEscape(c)
    ensures EscapeByte(c) != []
  {
  }

  /** The writer's escapes: the letters but the slash, six bytes with upper-case digits for other controls. */
  lemma {:induction false} EscapeForms(c: byte)
    ensures forall k :: 0 <= k < 8 && c == ESCAPED_BYTES[k] && ESCAPE_LETTERS[k] != '/' ==>
              EscapeByte(c) == [0x5C, ESCAPE_LETTERS[k] as int]
    ensures c < 0x20 && c !in ESCAPED_BYTES ==>
              EscapeByte(c) == [0x5C, 'u' as int, '0' as int, '0' as int,
                                UPPER_DIGITS[c / 16] as int, UPPER_DIGITS[c % 16] as int]
    ensures c >= 0x20 && (c !in ESCAPED_BYTES || c == '/' as int) ==> EscapeByte(c) == [c]
  {
    assert ESCAPE_LETTERS[0] == '"' && ESCAPE_LETTERS[1] == '\\' && ESCAPE_LETTERS[2] == '/';
    assert ESCAPE_LETTERS[3] == 'b' && ESCAPE_LETTERS[4] == 'f' && ESCAPE_LETTERS[5] == 'n';
    assert ESCAPE_LETTERS[6] == 'r' && ESCAPE_LETTERS[7] == 't';
  }

  lemma {:induction false} EscapeConcat(a: bytes, b: bytes)
    ensures Escape(a + b) == Escape(a) + Escape(b)
    decreases |a|
  {
    if a == [] {
      assert a + b == b;
    } else {
      assert (a + b)[1..] == a[1..] + b;
      EscapeConcat(a[1..], b);
      assert EscapeByte(a[0]) + (Escape(a[1..]) + Escape(b)) == EscapeByte(a[0]) + Escape(a[1..]) + Escape(b);
    }
  }

  /** Different strings have different escaped forms. */
  lemma {:induction false} EscapeInjective(v: bytes, w: bytes)
    requires Escape(v) == Escape(w)
    ensures v == w
  {
    EscapeInvertible(v);
    EscapeInvertible(w);
  }
}
