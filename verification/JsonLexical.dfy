/**
 The lexical part of RFC 8259: white space (section 2), numbers (section 6) and
 string bodies (section 7), followed by the scanners of the reader and the proof that
 each scanner finds exactly the lexeme of the grammar.
 */
module JsonLexical {
  import opened Common

  // ---------------------------------------------------------------- grammar

  predicate IsBlankByte(c: byte) {
    c == SPACE || c == TAB || c == LINE_FEED || c == CARRIAGE_RETURN
  }

  predicate IsBlank(s: bytes) {
    forall i :: 0 <= i < |s| ==> IsBlankByte(s[i])
  }

  /** ws */
  type Blank = s: bytes | IsBlank(s)

  predicate IsHexDigit(c: byte) {
    IsDigit(c) || 0x61 <= c <= 0x66 || 0x41 <= c <= 0x46
  }

  /** The letters that may follow a backslash, `u` apart. */
  predicate IsSimpleEscape(c: byte) {
    c == BACKSLASH || c == QUOTE || c == SLASH
    || c == 0x62 || c == 0x66 || c == 0x6E || c == 0x72 || c == 0x74
  }

  predicate IsUnicodeEscape(s: bytes) {
    |s| >= 6 && s[0] == BACKSLASH && s[1] == 0x75
    && IsHexDigit(s[2]) && IsHexDigit(s[3]) && IsHexDigit(s[4]) && IsHexDigit(s[5])
  }

  /** Length of the `char` production at the head of `s`; 0 when there is none. Bytes 0x80 and above are unchecked. */
  function UnitLength(s: bytes): (n: nat)
    ensures n <= |s|
  {
    if s == [] || s[0] == QUOTE || s[0] < SPACE then 0
    else if s[0] != BACKSLASH then 1
    else if |s| >= 2 && IsSimpleEscape(s[1]) then 2
    else if IsUnicodeEscape(s) then 6
    else 0
  }

  /** *char: the text of a string between its quotes. */
  predicate IsBody(s: bytes)
    decreases |s|
  {
    s == [] || (UnitLength(s) > 0 && IsBody(s[UnitLength(s)..]))
  }

  type Body = s: bytes | IsBody(s)

  predicate IsInt(s: bytes) {
    s == [DIGIT_0] || (s != [] && AllDigits(s) && s[0] != DIGIT_0)
  }

  predicate IsFrac(s: bytes) {
    s == [] || (|s| >= 2 && s[0] == DOT && AllDigits(s[1..]))
  }

  predicate IsExp(s: bytes) {
    s == [] || ((s[0] == 0x65 || s[0] == 0x45)
                && ((|s| >= 2 && AllDigits(s[1..]))
                    || (|s| >= 3 && (s[1] == PLUS || s[1] == MINUS) && AllDigits(s[2..]))))
  }

  /** number = [ minus ] int [ frac ] [ exp ] */
  datatype NumberParts = NumberParts(negative: bool, whole: bytes, frac: bytes, exp: bytes) {
    predicate WellFormed() {
      IsInt(whole) && IsFrac(frac) && IsExp(exp)
    }

    function Text(): bytes {
      (if negative then [MINUS] else []) + (whole + (frac + exp))
    }
  }

  type Number = n: NumberParts | n.WellFormed() witness NumberParts(false, [DIGIT_0], [], [])

  /** White space, digits and hex digits of RFC 8259, by the characters themselves. */
  lemma {:induction false} CharacterClasses(c: byte)
    ensures IsBlankByte(c) <==> c in Ascii(" \t\n\r")
    ensures IsDigit(c) <==> c in Ascii("0123456789")
    ensures IsHexDigit(c) <==> c in Ascii("0123456789") || c in Ascii("abcdef") || c in Ascii("ABCDEF")
    ensures IsSimpleEscape(c) <==> c in Ascii("\"\\/bfnrt")
  {
    assert Ascii(" \t\n\r") == [0x20, 0x09, 0x0A, 0x0D];
    assert Ascii("0123456789") == [0x30, 0x31, 0x32, 0x33, 0x34, 0x35, 0x36, 0x37, 0x38, 0x39];
    assert Ascii("abcdef") == [0x61, 0x62, 0x63, 0x64, 0x65, 0x66];
    assert Ascii("ABCDEF") == [0x41, 0x42, 0x43, 0x44, 0x45, 0x46];
    assert Ascii("\"\\/bfnrt") == [0x22, 0x5C, 0x2F, 0x62, 0x66, 0x6E, 0x72, 0x74];
  }

  /** The three forms of a `char` in section 7 of RFC 8259. */
  lemma {:induction false} CharForms(s: bytes)
    ensures UnitLength(s) == 1 <==> s != [] && s[0] >= 0x20 && s[0] !in Ascii("\"\\")
    ensures UnitLength(s) == 2 <==> |s| >= 2 && s[0] in Ascii("\\") && s[1] in Ascii("\"\\/bfnrt")
    ensures UnitLength(s) == 6 <==>
              |s| >= 6 && s[..2] == Ascii("\\u") && forall k :: 2 <= k < 6 ==> IsHexDigit(s[k])
    ensures UnitLength(s) in {0, 1, 2, 6}
  {
    hide IsHexDigit;
    assert Ascii("\"\\") == [0x22, 0x5C] && Ascii("\\") == [0x5C] && Ascii("\\u") == [0x5C, 0x75];
    assert Ascii("\"\\/bfnrt") == [0x22, 0x5C, 0x2F, 0x62, 0x66, 0x6E, 0x72, 0x74];
  }

  lemma {:induction false} DigitBehind(prefix: bytes, d: byte)
    requires IsDigit(d)
    ensures (prefix + [d])[|prefix|..] == [d] && AllDigits([d])
  {
  }

  /** The parts of a number in section 6 of RFC 8259, with every sign that occurs in them. */
  lemma {:induction false} NumberForms(d: byte)
    requires IsDigit(d)
    ensures IsInt([d]) && (IsInt([d, d]) <==> d != '0' as int) && !IsInt([])
    ensures IsFrac(Ascii(".") + [d]) && !IsFrac(Ascii(".")) && IsFrac([])
    ensures NumberParts(true, [d], [], []).Text() == Ascii("-") + [d]
  {
    hide Ascii;
    Signs();
    DigitBehind([DOT], d);
    DigitBehind([MINUS], d);
    EmptyRight([d]);
  }

  lemma {:induction false} ExponentForms(d: byte)
    requires IsDigit(d)
    ensures IsExp(Ascii("e") + [d]) && IsExp(Ascii("E") + [d]) && IsExp([]) && !IsExp(Ascii("e"))
    ensures IsExp(Ascii("e") + Ascii("+") + [d]) && IsExp(Ascii("E") + Ascii("-") + [d])
    ensures !IsExp(Ascii("e") + Ascii("+"))
  {
    assert Ascii("e") == [0x65] && Ascii("E") == [0x45];
    hide Ascii;
    Signs();
    DigitBehind([0x65], d);
    DigitBehind([0x45], d);
    DigitBehind([0x65, PLUS], d);
    DigitBehind([0x45, MINUS], d);
  }

  // ---------------------------------------------------------------- scanners

  /** What is left after the leading white space. */
  function SkipBlank(s: bytes): (r: bytes)
    decreases |s|
    ensures |r| <= |s|
  {
    if s != [] && IsBlankByte(s[0]) then SkipBlank(s[1..]) else s
  }

  datatype BodyScan = Found(length: nat, escaped: bool) | Bad(error: Result)

  /** The scan of a string body up to its closing quote, with the reader's error codes. */
  function ScanBody(s: bytes): (r: BodyScan)
    decreases |s|
    ensures r.Found? ==> r.length < |s|
    ensures r.Bad? ==> r.error == UnexpectedEnd || r.error == UnexpectedChar
  {
    if s == [] then Bad(UnexpectedEnd)
    else if s[0] == QUOTE then Found(0, false)
    else if s[0] == BACKSLASH then
      if |s| < 2 then Bad(UnexpectedEnd)
      else if s[1] == 0x75 then
        if |s| < 6 then Bad(UnexpectedEnd)
        else if !IsUnicodeEscape(s) then Bad(UnexpectedChar)
        else Shift(6, true, ScanBody(s[6..]))
      else if !IsSimpleEscape(s[1]) then Bad(UnexpectedChar)
      else Shift(2, true, ScanBody(s[2..]))
    else if s[0] < SPACE then Bad(UnexpectedChar)
    else Shift(1, false, ScanBody(s[1..]))
  }

  function Shift(n: nat, escaped: bool, r: BodyScan): BodyScan {
    match r
    case Found(k, e) => Found(n + k, escaped || e)
    case Bad(_) => r
  }

  /** Number of leading digits. */
  function DigitCount(s: bytes): (n: nat)
    decreases |s|
    ensures n <= |s|
  {
    if s != [] && IsDigit(s[0]) then 1 + DigitCount(s[1..]) else 0
  }

  function ScanInt(s: bytes): (r: Option<nat>)
    ensures r.Some? ==> 0 < r.value <= |s|
  {
    if s == [] || !IsDigit(s[0]) then None
    else if s[0] == DIGIT_0 then Some(1)
    else Some(DigitCount(s))
  }

  function ScanFrac(s: bytes): (r: Option<nat>)
    ensures r.Some? ==> r.value <= |s|
  {
    if s == [] || s[0] != DOT then Some(0)
    else if |s| < 2 || !IsDigit(s[1]) then None
    else Some(1 + DigitCount(s[1..]))
  }

  function ScanExp(s: bytes): (r: Option<nat>)
    ensures r.Some? ==> r.value <= |s|
  {
    if s == [] || (s[0] != 0x65 && s[0] != 0x45) then Some(0)
    else
      var k := if |s| >= 2 && (s[1] == PLUS || s[1] == MINUS) then 2 else 1;
      if |s| <= k || !IsDigit(s[k]) then None else Some(k + DigitCount(s[k..]))
  }

  /** `a` bytes, followed by what `rest` finds. */
  function Then(a: nat, rest: Option<nat>): Option<nat> {
    if rest.Some? then Some(a + rest.value) else None
  }

  function ScanFracExp(s: bytes): (r: Option<nat>)
    ensures r.Some? ==> r.value <= |s|
  {
    var f := ScanFrac(s);
    if f.None? then None else Then(f.value, ScanExp(s[f.value..]))
  }

  function ScanUnsigned(s: bytes): (r: Option<nat>)
    ensures r.Some? ==> 0 < r.value <= |s|
  {
    var i := ScanInt(s);
    if i.None? then None else Then(i.value, ScanFracExp(s[i.value..]))
  }

  /** Length of the longest number at the head of `s`, or None where the reader reports an unexpected character. */
  function ScanNumber(s: bytes): (r: Option<nat>)
    ensures r.Some? ==> 0 < r.value <= |s|
  {
    if s != [] && s[0] == MINUS then Then(1, ScanUnsigned(s[1..])) else ScanUnsigned(s)
  }

  // ---------------------------------------------------------------- white space

  lemma {:induction false} SkipBlankExact(w: bytes, rest: bytes)
    requires IsBlank(w) && (rest == [] || !IsBlankByte(rest[0]))
    ensures SkipBlank(w + rest) == rest
    decreases |w|
  {
    if w == [] {
      assert w + rest == rest;
    } else {
      assert (w + rest)[1..] == w[1..] + rest;
      SkipBlankExact(w[1..], rest);
    }
  }

  /** The white space that SkipBlank removes. */
  lemma {:induction false} SkipBlankSplit(s: bytes) returns (w: bytes)
    ensures IsBlank(w) && s == w + SkipBlank(s)
    ensures SkipBlank(s) == [] || !IsBlankByte(SkipBlank(s)[0])
    decreases |s|
  {
    if s != [] && IsBlankByte(s[0]) {
      var v := SkipBlankSplit(s[1..]);
      w := [s[0]] + v;
    } else {
      w := [];
    }
  }

  // ---------------------------------------------------------------- string bodies

  /** A `char` production does not depend on what follows it. */
  lemma {:induction false} UnitLengthExtends(s: bytes, rest: bytes)
    requires UnitLength(s) > 0
    ensures UnitLength(s + rest) == UnitLength(s)
    ensures (s + rest)[UnitLength(s)..] == s[UnitLength(s)..] + rest
  {
  }

  lemma {:induction false} ScanBodyComplete(body: bytes, rest: bytes)
    requires IsBody(body)
    ensures ScanBody(body + [QUOTE] + rest) == Found(|body|, BACKSLASH in body)
    decreases |body|
  {
    var s := body + [QUOTE] + rest;
    if body != [] {
      var n := UnitLength(body);
      var tail := body[n..];
      assert body == body[..n] + tail;
      assert s[n..] == tail + [QUOTE] + rest;
      ScanBodyComplete(tail, rest);
      assert BACKSLASH in body <==> BACKSLASH in body[..n] || BACKSLASH in tail;
      if n == 1 {
        assert body[..n] == [body[0]];
      } else {
        assert body[..n][0] == BACKSLASH;
      }
    }
  }

  lemma {:induction false} ScanBodySound(s: bytes, n: nat, escaped: bool)
    requires ScanBody(s) == Found(n, escaped)
    ensures n < |s| && s[n] == QUOTE && IsBody(s[..n]) && escaped == (BACKSLASH in s[..n])
    decreases |s|
  {
    hide ScanBody, UnitLength, IsBody;
    ScanBodyUnit(s);
    if s[0] != QUOTE {
      var k := UnitLength(s);
      var later := ScanBody(s[k..]);
      ScanBodySound(s[k..], later.length, later.escaped);
      PrependUnit(s, k, n);
    }
  }

  /** A successful scan ends at the quote or takes one unit of the body. */
  lemma {:induction false} ScanBodyUnit(s: bytes)
    requires ScanBody(s).Found?
    ensures s != [] && IsBody([])
    ensures s[0] == QUOTE ==> ScanBody(s) == Found(0, false)
    ensures s[0] != QUOTE ==>
              var k := UnitLength(s);
              k > 0 && ScanBody(s) == Shift(k, s[0] == BACKSLASH, ScanBody(s[k..]))
  {
  }

  lemma {:induction false} PrependUnit(s: bytes, k: nat, n: nat)
    requires 0 < k == UnitLength(s) <= n <= |s| && IsBody(s[k..][..n - k])
    ensures IsBody(s[..n])
    ensures BACKSLASH in s[..n] <==> s[0] == BACKSLASH || BACKSLASH in s[k..][..n - k]
  {
    assert s[..n][k..] == s[k..][..n - k];
    assert s[..n] == s[..k] + s[k..][..n - k];
    assert BACKSLASH in s[..k] <==> s[0] == BACKSLASH;
  }

  // ---------------------------------------------------------------- numbers

  predicate StartsWithDigit(s: bytes) {
    s != [] && IsDigit(s[0])
  }

  lemma {:induction false} DigitCountExact(d: bytes, rest: bytes)
    requires AllDigits(d) && !StartsWithDigit(rest)
    ensures DigitCount(d + rest) == |d|
    decreases |d|
  {
    if d == [] {
      assert d + rest == rest;
    } else {
      assert (d + rest)[1..] == d[1..] + rest;
      DigitCountExact(d[1..], rest);
    }
  }

  lemma {:induction false} DigitCountSound(s: bytes)
    ensures AllDigits(s[..DigitCount(s)])
    ensures !StartsWithDigit(s[DigitCount(s)..])
    decreases |s|
  {
    if StartsWithDigit(s) {
      DigitCountSound(s[1..]);
      var n := DigitCount(s);
      assert s[..n] == [s[0]] + s[1..][..n - 1];
      assert s[n..] == s[1..][n - 1..];
    }
  }

  /** A byte that cannot continue a number. */
  predicate EndsNumber(s: bytes) {
    s == [] || !(IsDigit(s[0]) || s[0] == DOT || s[0] == 0x65 || s[0] == 0x45)
  }

  lemma {:induction false} ScanExpExact(e: bytes, rest: bytes)
    requires IsExp(e) && EndsNumber(rest)
    ensures ScanExp(e + rest) == Some(|e|)
  {
    var s := e + rest;
    if e == [] {
      assert s == rest;
    } else if AllDigits(e[1..]) {
      assert s[1] == e[1..][0];
      assert s[1..] == e[1..] + rest;
      DigitCountExact(e[1..], rest);
    } else {
      assert s[2] == e[2..][0];
      assert s[2..] == e[2..] + rest;
      DigitCountExact(e[2..], rest);
    }
  }

  lemma {:induction false} ScanFracExact(f: bytes, rest: bytes)
    requires IsFrac(f) && !StartsWithDigit(rest) && (rest == [] || rest[0] != DOT)
    ensures ScanFrac(f + rest) == Some(|f|)
  {
    var s := f + rest;
    if f == [] {
      assert s == rest;
    } else {
      assert s[1] == f[1..][0];
      assert s[1..] == f[1..] + rest;
      DigitCountExact(f[1..], rest);
    }
  }

  lemma {:induction false} ScanIntExact(i: bytes, rest: bytes)
    requires IsInt(i) && !StartsWithDigit(rest)
    ensures ScanInt(i + rest) == Some(|i|)
  {
    if i[0] != DIGIT_0 {
      DigitCountExact(i, rest);
    }
  }

  /** The head of a concatenation. */
  lemma {:induction false} HeadOfConcat(a: bytes, b: bytes)
    ensures a == [] ==> a + b == b
    ensures a != [] ==> a + b != [] && (a + b)[0] == a[0]
    ensures (a + b)[|a|..] == b && (a + b)[..|a|] == a
  {
  }

  lemma {:induction false} ScanFracExpExact(f: bytes, e: bytes, rest: bytes)
    requires IsFrac(f) && IsExp(e) && EndsNumber(rest)
    ensures ScanFracExp(f + (e + rest)) == Some(|f| + |e|)
  {
    hide AllDigits, ScanFrac, ScanExp;
    HeadOfConcat(e, rest);
    HeadOfConcat(f, e + rest);
    ScanFracExact(f, e + rest);
    ScanExpExact(e, rest);
  }

  lemma {:induction false} ScanUnsignedExact(i: bytes, f: bytes, e: bytes, rest: bytes)
    requires IsInt(i) && IsFrac(f) && IsExp(e) && EndsNumber(rest)
    ensures ScanUnsigned(i + (f + (e + rest))) == Some(|i| + |f| + |e|)
  {
    hide AllDigits, IsInt, ScanInt, ScanFracExp;
    HeadOfConcat(e, rest);
    HeadOfConcat(f, e + rest);
    HeadOfConcat(i, f + (e + rest));
    ScanIntExact(i, f + (e + rest));
    ScanFracExpExact(f, e, rest);
  }

  lemma {:induction false} ScanNumberComplete(n: Number, rest: bytes)
    requires EndsNumber(rest)
    ensures ScanNumber(n.Text() + rest) == Some(|n.Text()|)
  {
    hide IsFrac, IsExp, ScanUnsigned;
    var u := n.whole + (n.frac + (n.exp + rest));
    Regroup3(if n.negative then [MINUS] else [], n.whole, n.frac + n.exp, rest);
    Assoc(n.frac, n.exp, rest);
    ScanUnsignedExact(n.whole, n.frac, n.exp, rest);
    HeadOfConcat(n.whole, n.frac + (n.exp + rest));
    HeadOfConcat(if n.negative then [MINUS] else [], u);
  }

  lemma {:induction false} ScanIntSound(s: bytes)
    requires ScanInt(s).Some?
    ensures IsInt(s[..ScanInt(s).value])
  {
    DigitCountSound(s);
  }

  lemma {:induction false} ScanFracSound(s: bytes)
    requires ScanFrac(s).Some?
    ensures IsFrac(s[..ScanFrac(s).value])
  {
    var n := ScanFrac(s).value;
    if n != 0 {
      DigitCountSound(s[1..]);
      assert s[..n][1..] == s[1..][..n - 1];
    }
  }

  lemma {:induction false} ScanExpSound(s: bytes)
    requires ScanExp(s).Some?
    ensures IsExp(s[..ScanExp(s).value])
  {
    var n := ScanExp(s).value;
    if n != 0 {
      var k := if |s| >= 2 && (s[1] == PLUS || s[1] == MINUS) then 2 else 1;
      DigitCountSound(s[k..]);
      assert s[..n][k..] == s[k..][..n - k];
    }
  }

  lemma {:induction false} TakeThree(s: bytes, i: nat, f: nat, e: nat)
    requires i + f + e <= |s|
    ensures s[..i] + (s[i..][..f] + s[i..][f..][..e]) == s[..i + f + e]
  {
  }

  lemma {:induction false} UnsignedParts(s: bytes)
    requires ScanUnsigned(s).Some?
    ensures ScanInt(s).Some?
    ensures var t := s[ScanInt(s).value..];
            ScanFrac(t).Some?
            && var u := t[ScanFrac(t).value..];
               ScanExp(u).Some? && ScanUnsigned(s).value == ScanInt(s).value + ScanFrac(t).value + ScanExp(u).value
  {
    hide ScanInt, ScanFrac, ScanExp;
  }

  lemma {:induction false} ScanUnsignedSound(s: bytes) returns (n: Number)
    requires ScanUnsigned(s).Some?
    ensures !n.negative && n.Text() == s[..ScanUnsigned(s).value]
  {
    hide ScanUnsigned, ScanInt, ScanFrac, ScanExp, IsInt, IsFrac, IsExp;
    UnsignedParts(s);
    var i := ScanInt(s).value;
    var t := s[i..];
    var f := ScanFrac(t).value;
    var e := ScanExp(t[f..]).value;
    ScanIntSound(s);
    ScanFracSound(t);
    ScanExpSound(t[f..]);
    n := NumberParts(false, s[..i], t[..f], t[f..][..e]);
    TakeThree(s, i, f, e);
    EmptyLeft(s[..i + f + e]);
  }

  lemma {:induction false} NegateText(u: NumberParts)
    requires !u.negative
    ensures u.(negative := true).Text() == [MINUS] + u.Text()
  {
    var t := u.whole + (u.frac + u.exp);
    assert [] + t == t;
  }

  lemma {:induction false} ScanNumberSound(s: bytes) returns (n: Number)
    requires ScanNumber(s).Some?
    ensures n.Text() == s[..ScanNumber(s).value]
  {
    hide ScanUnsigned, IsInt, IsFrac, IsExp;
    if s != [] && s[0] == MINUS {
      var u := ScanUnsignedSound(s[1..]);
      n := u.(negative := true);
      NegateText(u);
      HeadOfConcat([MINUS], u.Text());
      assert s[..ScanNumber(s).value] == [MINUS] + s[1..][..ScanNumber(s).value - 1];
    } else {
      n := ScanUnsignedSound(s);
    }
  }
}
