/**
 Integers in decimal: the printers of src/span.c and src/json_writer.c and the getters of
 src/json_token.c, against canonical decimal text and its value.
 */
module Decimal {
  import opened Common
  import opened JsonLexical
  import opened JsonGrammar
  import opened JsonTokens

  type int32 = x: int | -0x8000_0000 <= x < 0x8000_0000

  // ---------------------------------------------------------------- text and value

  /** Canonical decimal: no leading zero. */
  function DecimalText(n: nat): (s: bytes)
    ensures s != []
  {
    if n < 10 then [DIGIT_0 + n] else DecimalText(n / 10) + [DIGIT_0 + n % 10]
  }

  function IntText(v: int): bytes {
    if v < 0 then [MINUS] + DecimalText(-v) else DecimalText(v)
  }

  /** The value of a row of digits, leading zeros allowed. */
  function DigitsValue(s: bytes): nat
    requires AllDigits(s)
  {
    if s == [] then 0 else 10 * DigitsValue(s[..|s| - 1]) + (s[|s| - 1] - DIGIT_0)
  }

  function Signed(negative: bool, magnitude: int): int {
    if negative then -magnitude else magnitude
  }

  /** The integer a text spells with an optional minus and one or more digits. */
  function IntegerValue(s: bytes): Option<int> {
    var negative := s != [] && s[0] == MINUS;
    var digits := if negative then s[1..] else s;
    if digits == [] || !AllDigits(digits) then None
    else Some(Signed(negative, DigitsValue(digits)))
  }

  /** The value of digits is positional, to the base ten. */
  lemma {:induction false} DigitsArePositional(a: bytes, b: bytes)
    requires AllDigits(a) && AllDigits(b)
    ensures DigitsValue(a + b) == DigitsValue(a) * Pow10(|b|) + DigitsValue(b)
    decreases |b|
  {
    if b == [] {
      EmptyRight(a);
    } else {
      var front := b[..|b| - 1];
      assert (a + b)[..|a + b| - 1] == a + front;
      DigitsArePositional(a, front);
      Distributes(DigitsValue(a), Pow10(|front|), DigitsValue(front));
    }
  }

  lemma {:induction false} Distributes(v: nat, p: nat, f: nat)
    ensures 10 * (v * p + f) == v * (10 * p) + 10 * f
  {
  }

  /** The value of one digit is its place in the row of digits. */
  lemma {:induction false} DigitValue(n: nat)
    requires n < 10
    ensures var c := "0123456789"[n] as int;
            IsDigit(c) && DigitsValue([c]) == n && DecimalText(n) == [c]
    ensures Pow10(0) == 1 && Pow10(1) == 10
  {
    assert DigitsValue([]) == 0;
  }

  /** Decimal text is an `int` of RFC 8259 and spells the number. */
  lemma {:induction false} DecimalTextValue(n: nat)
    ensures AllDigits(DecimalText(n)) && DigitsValue(DecimalText(n)) == n && IsInt(DecimalText(n))
    ensures n > 0 ==> DecimalText(n)[0] != DIGIT_0
  {
    if n >= 10 {
      DecimalTextValue(n / 10);
      var s := DecimalText(n);
      assert s[..|s| - 1] == DecimalText(n / 10);
      assert s[0] == DecimalText(n / 10)[0];
    }
  }

  /** An `int` of RFC 8259 is the canonical text of its value. */
  lemma {:induction false} IntIsCanonical(s: bytes)
    requires IsInt(s)
    ensures AllDigits(s) && DecimalText(DigitsValue(s)) == s
    ensures s[0] != DIGIT_0 ==> DigitsValue(s) > 0
    decreases |s|
  {
    if |s| > 1 {
      var t := s[..|s| - 1];
      assert t[0] == s[0];
      IntIsCanonical(t);
      assert s == t + [s[|s| - 1]];
    } else {
      assert s[..0] == [];
    }
  }

  lemma {:induction false} IntTextValue(v: int)
    ensures IntegerValue(IntText(v)) == Some(v)
  {
    hide DecimalText, DigitsValue, AllDigits, IsInt;
    var m := if v < 0 then -v else v;
    DecimalTextValue(m);
    FirstIsDigit(DecimalText(m));
    assert ([MINUS] + DecimalText(m))[1..] == DecimalText(m);
  }

  lemma {:induction false} FirstIsDigit(s: bytes)
    requires s != [] && AllDigits(s)
    ensures s[0] != MINUS
  {
  }

  /** The text of an integer is a number of RFC 8259 without fraction or exponent. */
  lemma {:induction false} IntTextIsNumber(v: int) returns (n: Number)
    ensures n.Text() == IntText(v) && n.frac == [] && n.exp == []
  {
    var m := if v < 0 then -v else v;
    DecimalTextValue(m);
    hide AllDigits, DecimalText;
    n := NumberParts(v < 0, DecimalText(m), [], []);
    PadEmpty(DecimalText(m));
  }

  lemma {:induction false} PadEmpty(s: bytes)
    ensures [] + (s + ([] + [])) == s && s + ([] + []) == s
  {
  }

  lemma {:induction false} SignedValue(negative: bool, digits: bytes)
    requires digits != [] && digits[0] != MINUS
    ensures IntegerValue((if negative then [MINUS] else []) + digits)
            == if AllDigits(digits) then Some(Signed(negative, DigitsValue(digits))) else None
  {
    hide AllDigits, DigitsValue;
    EmptyLeft(digits);
    assert ([MINUS] + digits)[1..] == digits;
  }

  /** A fraction or an exponent puts a byte that is no digit behind the whole part. */
  lemma {:induction false} TailStopsDigits(whole: bytes, frac: bytes, exp: bytes)
    requires IsFrac(frac) && IsExp(exp)
    ensures frac + exp == [] <==> frac == [] && exp == []
    ensures frac + exp != [] ==> !AllDigits(whole + (frac + exp))
    ensures frac + exp == [] ==> whole + (frac + exp) == whole
  {
    var digits := whole + (frac + exp);
    if frac + exp != [] {
      assert digits[|whole|] == if frac != [] then frac[0] else exp[0];
      assert !IsDigit(digits[|whole|]);
    }
  }

  /** A number of RFC 8259 spells an integer exactly when it has no fraction and no exponent. */
  lemma {:induction false} NumberIsInteger(n: Number)
    ensures IntegerValue(n.Text()).Some? <==> n.frac == [] && n.exp == []
    ensures IntegerValue(n.Text()).Some? ==>
              AllDigits(n.whole) && IntegerValue(n.Text()).value == Signed(n.negative, DigitsValue(n.whole))
  {
    hide AllDigits, DigitsValue, DecimalText, IsFrac, IsExp, IntegerValue;
    var tail := n.frac + n.exp;
    TailStopsDigits(n.whole, n.frac, n.exp);
    IntIsCanonical(n.whole);
    FirstIsDigit(n.whole);
    HeadOfConcat(n.whole, tail);
    SignedValue(n.negative, n.whole + tail);
  }

  // ---------------------------------------------------------------- printing a uint64

  lemma {:induction false} DecimalTextLength(n: nat, k: nat)
    requires k > 0 && n < Pow10(k)
    ensures |DecimalText(n)| <= k
    decreases k
  {
    if n >= 10 {
      DecimalTextLength(n / 10, k - 1);
    }
  }

  function Pow10(k: nat): (p: nat)
    ensures p > 0
  {
    if k == 0 then 1 else 10 * Pow10(k - 1)
  }

  lemma Pow10Is20()
    ensures Pow10(20) == 100_000_000_000_000_000_000
  {
    assert Pow10(5) == 100_000;
    assert Pow10(10) == 100_000 * Pow10(5);
    assert Pow10(15) == 100_000 * Pow10(10);
    assert Pow10(20) == 100_000 * Pow10(15);
  }

  /** The first half of json_format_uint64: the digits, last one first. */
  method ReverseDigits(tmp: array<byte>, value: nat) returns (n: nat)
    requires tmp.Length >= 20 && value < TWO_TO_THE_64
    modifies tmp
    ensures n == |DecimalText(value)| <= 20
    ensures forall k :: 0 <= k < n ==> tmp[k] == DecimalText(value)[n - 1 - k]
  {
    hide DecimalText, Pow10;
    Pow10Is20();
    DecimalTextLength(value, 20);
    LastDigit(0);
    ghost var text := DecimalText(value);
    if value == 0 {
      tmp[0] := DIGIT_0;
      return 1;
    }
    n := 0;
    var v: nat := value;
    while v != 0
      invariant n <= |text| && (v == 0 ==> n == |text|)
      invariant v > 0 ==> DecimalText(v) == text[..|text| - n]
      invariant forall k :: 0 <= k < n ==> tmp[k] == text[|text| - 1 - k]
    {
      LastDigit(v);
      assert |DecimalText(v)| == |text| - n;
      tmp[n] := DIGIT_0 + v % 10;
      n := n + 1;
      v := v / 10;
    }
  }

  lemma {:induction false} LastDigit(v: nat)
    ensures var s := DecimalText(v);
            s[|s| - 1] == DIGIT_0 + v % 10 && (v >= 10 ==> s[..|s| - 1] == DecimalText(v / 10)) && (v < 10 ==> |s| == 1)
  {
  }

  /** json_format_uint64: the digits are produced in reverse and copied back to front. */
  method FormatUint64(dst: array<byte>, at: nat, value: nat) returns (n: nat)
    requires at <= dst.Length && value < TWO_TO_THE_64
    modifies dst
    ensures n == if at + |DecimalText(value)| <= dst.Length then |DecimalText(value)| else 0
    ensures dst[..at + n] == old(dst[..at]) + (if n > 0 then DecimalText(value) else [])
    ensures forall k :: at + n <= k < dst.Length ==> dst[k] == old(dst[k])
  {
    hide DecimalText;
    var tmp := new byte[20];
    ghost var text := DecimalText(value);
    n := ReverseDigits(tmp, value);
    if dst.Length - at < n {
      return 0;
    }
    for i := 0 to n
      invariant dst[..at + i] == old(dst[..at]) + text[..i]
      invariant forall k :: at + n <= k < dst.Length ==> dst[k] == old(dst[k])
      invariant forall k :: 0 <= k < n ==> tmp[k] == text[n - 1 - k]
    {
      assert tmp[n - 1 - i] == text[n - 1 - (n - 1 - i)];
      dst[at + i] := tmp[n - 1 - i];
    }
  }

  // ---------------------------------------------------------------- printing an int32

  /** Division and remainder of C: toward zero, the remainder with the sign of the dividend. */
  function TruncDiv(a: int, b: int): int
    requires b != 0
  {
    var q := Abs(a) / Abs(b);
    if (a < 0) == (b < 0) then q else -q
  }

  function TruncMod(a: int, b: int): int
    requires b != 0
  {
    var r := Abs(a) % Abs(b);
    if a < 0 then -r else r
  }

  function Abs(a: int): nat {
    if a < 0 then -a else a
  }

  /** Quotient and remainder of a power of ten, kept apart from the linear part of the proofs. */
  function Quot(m: nat, p: nat): (q: nat)
    requires p > 0
    ensures m < 10 * p ==> q < 10
  {
    QuotientIsDigit(m, p);
    m / p
  }

  function Rem(m: nat, p: nat): (r: nat)
    requires p > 0
    ensures r < p
  {
    m % p
  }

  lemma {:induction false} QuotientIsDigit(m: nat, p: nat)
    requires p > 0
    ensures m < 10 * p ==> m / p < 10
  {
    assert m == p * (m / p) + m % p;
    MulAtLeast(p, m / p - 9);
    assert p * (m / p - 9) == p * (m / p) - 9 * p;
  }

  /** The last `k` digits of `m`, written from the highest power of ten down. */
  function Fixed(m: nat, k: nat): bytes
    requires m < Pow10(k)
  {
    if k == 0 then []
    else
      var d: byte := DIGIT_0 + Quot(m, Pow10(k - 1));
      [d] + Fixed(Rem(m, Pow10(k - 1)), k - 1)
  }

  lemma {:induction false} MulAtLeast(w: nat, d: int)
    ensures d >= 1 ==> w * d >= w
    ensures d <= -1 ==> w * d <= -(w as int)
    decreases Abs(d)
  {
    if d > 1 {
      MulAtLeast(w, d - 1);
      assert w * d == w * (d - 1) + w;
    } else if d < -1 {
      MulAtLeast(w, d + 1);
      assert w * d == w * (d + 1) - w;
    }
  }

  lemma {:induction false} DivisionIsUnique(a: nat, w: nat, q: nat, r: nat)
    requires a == w * q + r && r < w
    ensures a / w == q && a % w == r
  {
    assert a == w * (a / w) + a % w;
    assert w * (q - a / w) == a % w - r;
    MulAtLeast(w, q - a / w);
  }

  /** Dividing by ten times `p` is dividing by ten and then by `p`. */
  lemma {:induction false} SplitDigits(m: nat, p: nat)
    requires p > 0
    ensures Quot(m, 10 * p) == Quot(m / 10, p)
    ensures Rem(m, 10 * p) / 10 == Rem(m / 10, p) && Rem(m, 10 * p) % 10 == m % 10
  {
    var q, r := m / 10 / p, m / 10 % p;
    assert m / 10 == p * q + r;
    var s := 10 * r + m % 10;
    assert m == (10 * p) * q + s;
    DivisionIsUnique(m, 10 * p, q, s);
  }

  lemma {:induction false} ByOne(m: nat)
    ensures Quot(m, 1) == m && Rem(m, 1) == 0
  {
  }

  lemma {:induction false} PowNext(k: nat)
    requires k > 0
    ensures Pow10(k) == 10 * Pow10(k - 1) && Pow10(0) == 1
  {
  }

  lemma {:induction false} FixedOne(m: nat)
    requires m < 10
    ensures m < Pow10(1) && Fixed(m, 1) == [DIGIT_0 + m]
  {
    PowNext(1);
    FixedStep(m, 1);
    ByOne(m);
    FixedNone(0);
  }

  /** From either end the digits are the same. */
  lemma {:induction false} FixedEnds(m: nat, k: nat)
    requires k > 1 && m < Pow10(k)
    ensures m / 10 < Pow10(k - 1) && Fixed(m, k) == Fixed(m / 10, k - 1) + [DIGIT_0 + m % 10]
    decreases k
  {
    hide Quot, Rem, Pow10, Fixed;
    PowNext(k);
    PowNext(k - 1);
    var p := Pow10(k - 2);
    var low := Rem(m, Pow10(k - 1));
    SplitDigits(m, p);
    FixedStep(m, k);
    if k > 2 {
      FixedEnds(low, k - 1);
      FixedStep(m / 10, k - 1);
      Assoc([DIGIT_0 + Quot(m / 10, p)], Fixed(low / 10, k - 2), [DIGIT_0 + m % 10]);
    } else {
      FixedOne(low);
      FixedOne(m / 10);
      ByOne(m / 10);
    }
  }

  lemma {:induction false} FixedIsDecimal(m: nat, k: nat)
    requires k > 0 && m < Pow10(k) && (k == 1 || Pow10(k - 1) <= m)
    ensures Fixed(m, k) == DecimalText(m)
    decreases k
  {
    hide Quot, Rem;
    if k == 1 {
      ByOne(m);
    } else {
      FixedEnds(m, k);
      FixedIsDecimal(m / 10, k - 1);
    }
  }

  lemma {:induction false} FixedNone(m: nat)
    requires m < 1
    ensures m < Pow10(0) && Fixed(m, 0) == []
  {
  }

  lemma {:induction false} FixedStep(m: nat, k: nat)
    requires k > 0 && m < Pow10(k)
    ensures var p := Pow10(k - 1);
            Quot(m, p) < 10 && Rem(m, p) < p && Fixed(m, k) == [DIGIT_0 + Quot(m, p)] + Fixed(Rem(m, p), k - 1)
  {
    hide Quot, Rem;
  }

  lemma {:induction false} TruncFacts(v: int, mask: int)
    requires mask != 0 && (v == 0 || (v < 0) == (mask < 0))
    ensures TruncDiv(v, mask) == Quot(Abs(v), Abs(mask))
    ensures Abs(TruncMod(v, mask)) == Rem(Abs(v), Abs(mask))
    ensures TruncMod(v, mask) == v <==> Abs(v) < Abs(mask)
    ensures v <= 0 ==> TruncMod(v, mask) <= 0
    ensures v >= 0 ==> TruncMod(v, mask) >= 0
  {
    var a, b := Abs(v), Abs(mask);
    assert a % b <= a && a % b < b;
  }

  /** The mask loop of span_copy_int32: the power of ten of the value's first digit, with its sign. */
  method FirstMask(value: int32) returns (mask: int, ghost k: nat)
    requires value != 0
    ensures 0 < k <= 10 && Abs(mask) == Pow10(k - 1) && (mask < 0) == (value < 0)
    ensures Pow10(k - 1) <= Abs(value) < Pow10(k)
  {
    mask := 1_000_000_000;
    if value < 0 {
      mask := -1 * mask;
    }
    k := 10;
    assert Pow10(5) == 100_000 && Pow10(9) == 10_000 * Pow10(5);
    TruncFacts(value, mask);
    while TruncMod(value, mask) == value
      invariant 0 < k <= 10 && Abs(mask) == Pow10(k - 1) && (mask < 0) == (value < 0)
      invariant Abs(value) < Pow10(k)
      invariant TruncMod(value, mask) == value <==> Abs(value) < Abs(mask)
      decreases k
    {
      mask := TruncDiv(mask, 10);
      k := k - 1;
      TruncFacts(value, mask);
    }
  }

  lemma {:induction false} IntTextIsLong(v: int)
    ensures |IntText(v)| > 0
    ensures IntText(v) == (if v < 0 then [MINUS] else []) + DecimalText(Abs(v))
  {
    EmptyLeft(DecimalText(Abs(v)));
  }

  /** span_copy_int32: the canonical text of the value, when there is room for it. */
  method CopyInt32(dst: array<byte>, at: nat, value: int32) returns (good: bool, next: nat)
    requires at <= dst.Length
    modifies dst
    ensures at <= next <= dst.Length && dst[..at] == old(dst[..at])
    ensures good <==> at + |IntText(value)| <= dst.Length
    ensures good ==> dst[..next] == old(dst[..at]) + IntText(value)
  {
    hide DecimalText, Fixed, Pow10;
    next := at;
    if at == dst.Length {
      IntTextIsLong(value);
      return false, next;
    }
    ghost var before, sign: bytes := dst[..at], [];
    EmptyRight(before);
    if value < 0 {
      good, next := CopyBytes(dst, next, [MINUS]);
      sign := [MINUS];
    }
    ghost var k := 1;
    var mask := 1;
    if value != 0 {
      mask, k := FirstMask(value);
    }
    PowNext(1);
    FixedIsDecimal(Abs(value), k);
    assert dst[..next] == before + sign;
    good, next := CopyDigits(dst, next, value, mask, k);
    Assoc(before, sign, DecimalText(Abs(value)));
    EmptyLeft(DecimalText(Abs(value)));
    FirstPart(dst, before, sign);
  }

  /** The digit loop of span_copy_int32. */
  method CopyDigits(dst: array<byte>, at: nat, value: int, first: int, ghost k: nat) returns (good: bool, next: nat)
    requires at <= dst.Length && k > 0 && Abs(first) == Pow10(k - 1) && Abs(value) < Pow10(k)
    requires value == 0 || (value < 0) == (first < 0)
    modifies dst
    ensures at <= next <= dst.Length && dst[..at] == old(dst[..at])
    ensures good <==> at + |Fixed(Abs(value), k)| <= dst.Length
    ensures good ==> dst[..next] == old(dst[..at]) + Fixed(Abs(value), k)
  {
    hide Fixed, Pow10, TruncDiv, TruncMod, Quot, Rem;
    var v, mask := value, first;
    next := at;
    ghost var j: nat := k;
    ghost var before, done: bytes := dst[..at], [];
    EmptyLeft(Fixed(Abs(value), k));
    EmptyRight(before);
    while mask != 0
      invariant at <= next <= dst.Length && next == at + |done| && (mask != 0 <==> j > 0)
      invariant (j > 0 ==> Abs(mask) == Pow10(j - 1)) && Abs(v) < Pow10(j)
      invariant v == 0 || mask == 0 || (v < 0) == (mask < 0)
      invariant done + Fixed(Abs(v), j) == Fixed(Abs(value), k)
      invariant dst[..next] == before + done
      decreases j
    {
      TruncFacts(v, mask);
      FixedStep(Abs(v), j);
      NextMask(mask, j);
      var digit := TruncDiv(v, mask);
      var c: byte := DIGIT_0 + digit;
      Assoc(done, [c], Fixed(Abs(TruncMod(v, mask)), j - 1));
      Assoc(before, done, [c]);
      v := TruncMod(v, mask);
      mask := TruncDiv(mask, 10);
      j := j - 1;
      var fits;
      fits, next := CopyBytes(dst, next, [c]);
      if !fits {
        EmptyRight(before + done);
        FirstPart(dst, before, done);
        return false, next;
      }
      done := done + [c];
    }
    PowNext(1);
    FixedNone(Abs(v));
    EmptyRight(done);
    FirstPart(dst, before, done);
    return true, next;
  }

  lemma {:induction false} FirstPart(dst: array<byte>, before: bytes, done: bytes)
    requires |before| + |done| <= dst.Length && dst[..|before| + |done|] == before + done
    ensures dst[..|before|] == before
  {
    assert dst[..|before|] == dst[..|before| + |done|][..|before|];
  }

  lemma {:induction false} NextMask(mask: int, j: nat)
    requires j > 0 && Abs(mask) == Pow10(j - 1)
    ensures TruncDiv(mask, 10) == 0 <==> j == 1
    ensures j > 1 ==> Abs(TruncDiv(mask, 10)) == Pow10(j - 2)
    ensures TruncDiv(mask, 10) != 0 ==> (TruncDiv(mask, 10) < 0) == (mask < 0)
  {
  }

  // ---------------------------------------------------------------- reading integers back

  const UINT64_MAX := TWO_TO_THE_64 - 1

  /** The value of a row of digits never falls as the row grows. */
  lemma {:induction false} DigitsValueGrows(s: bytes, i: nat)
    requires AllDigits(s) && i <= |s|
    ensures AllDigits(s[..i]) && DigitsValue(s[..i]) <= DigitsValue(s)
    decreases |s| - i
  {
    if i == |s| {
      assert s[..i] == s;
    } else {
      DigitsValueGrows(s, i + 1);
      assert s[..i + 1][..i] == s[..i];
    }
  }

  /** The digits at the head of `s` from index `start` on. */
  function DigitRun(s: bytes, start: nat): bytes
    requires start <= |s|
  {
    s[start..][..DigitCount(s[start..])]
  }

  lemma {:induction false} RunEnd(s: bytes, j: nat)
    requires j < |s| && j <= DigitCount(s)
    ensures IsDigit(s[j]) <==> j < DigitCount(s)
    decreases j
  {
    if j > 0 {
      RunEnd(s[1..], j - 1);
    }
  }

  /**
   parse_uint64_digits: reads a row of digits into a uint64. The guard is exact: the answer
   is None only for an empty row or a row whose value does not fit.
   */
  method ParseUint64Digits(p: bytes, start: nat) returns (r: Option<nat>, next: nat)
    requires start <= |p|
    ensures AllDigits(DigitRun(p, start))
    ensures r.Some? <==> DigitRun(p, start) != [] && DigitsValue(DigitRun(p, start)) <= UINT64_MAX
    ensures r.Some? ==> r.value == DigitsValue(DigitRun(p, start)) && next == start + |DigitRun(p, start)|
  {
    var t := p[start..];
    DigitCountSound(t);
    ghost var run := DigitRun(p, start);
    var v: nat := 0;
    var i := start;
    assert run[..0] == [];
    while i < |p| && IsDigit(p[i])
      invariant start <= i <= start + |run| && AllDigits(run[..i - start])
      invariant v == DigitsValue(run[..i - start]) <= UINT64_MAX
    {
      var j := i - start;
      RunEnd(t, j);
      var d: nat := p[i] - DIGIT_0;
      assert run[j] == p[i] && run[..j + 1][..j] == run[..j];
      assert AllDigits(run[..j + 1]) && DigitsValue(run[..j + 1]) == 10 * v + d;
      if v > (UINT64_MAX - d) / 10 {
        DigitsValueGrows(run, j + 1);
        return None, i;
      }
      v := v * 10 + d;
      i := i + 1;
    }
    if i < |p| {
      RunEnd(t, i - start);
    }
    assert run[..|run|] == run;
    if i == start {
      return None, i;
    }
    return Some(v), i;
  }

  datatype Parsed = Parsed(negative: bool, magnitude: nat)

  /** token_is_pure_integer */
  method PureInteger(s: bytes) returns (r: Option<Parsed>)
    ensures r.Some? ==> IntegerValue(s) == Some(Signed(r.value.negative, r.value.magnitude))
    ensures r.Some? ==> r.value.magnitude <= UINT64_MAX && r.value.negative == (s != [] && s[0] == MINUS)
    ensures IntegerValue(s).Some? && Abs(IntegerValue(s).value) <= UINT64_MAX ==> r.Some?
  {
    if |s| == 0 {
      return None;
    }
    var negative := false;
    var i := 0;
    if s[0] == MINUS {
      negative, i := true, 1;
    }
    ghost var digits := s[i..];
    assert s[0..] == s;
    if AllDigits(digits) {
      AllDigitsRun(digits);
    }
    var v, next := ParseUint64Digits(s, i);
    if v == None {
      return None;
    }
    if next != |s| {
      return None;
    }
    assert DigitRun(s, i) == digits;
    return Some(Parsed(negative, v.value));
  }

  lemma {:induction false} AllDigitsRun(s: bytes)
    requires AllDigits(s)
    ensures DigitCount(s) == |s| && s[..|s|] == s
  {
    DigitCountExact(s, []);
    assert s + [] == s;
  }

  /** What a getter for the range `lo..hi` answers. */
  predicate Answers(token: Token, lo: int, hi: int, r: Result, value: int) {
    if token.kind != NumberToken then r == InvalidState
    else
      var v := IntegerValue(token.text);
      if v.Some? && lo <= v.value <= hi then r == Ok && value == v.value else r == UnexpectedChar
  }

  /** json_token_get_uint64 */
  method GetUint64(token: Token) returns (r: Result, value: int)
    ensures Answers(token, 0, UINT64_MAX, r, value)
  {
    if token.kind != NumberToken {
      return InvalidState, 0;
    }
    var p := PureInteger(token.text);
    if p == None || (p.value.negative && p.value.magnitude != 0) {
      return UnexpectedChar, 0;
    }
    return Ok, p.value.magnitude;
  }

  /** json_token_get_uint32 */
  method GetUint32(token: Token) returns (r: Result, value: int)
    ensures Answers(token, 0, TWO_TO_THE_32 - 1, r, value)
  {
    r, value := GetUint64(token);
    if r == Ok && value > TWO_TO_THE_32 - 1 {
      return UnexpectedChar, 0;
    }
  }

  const INT64_MAX := 0x7FFF_FFFF_FFFF_FFFF

  /** json_token_get_int64 */
  method GetInt64(token: Token) returns (r: Result, value: int)
    ensures Answers(token, -INT64_MAX - 1, INT64_MAX, r, value)
  {
    if token.kind != NumberToken {
      return InvalidState, 0;
    }
    var p := PureInteger(token.text);
    if p == None {
      return UnexpectedChar, 0;
    }
    var mag := p.value.magnitude;
    if p.value.negative {
      if mag > INT64_MAX + 1 {
        return UnexpectedChar, 0;
      }
      return Ok, -mag;
    }
    if mag > INT64_MAX {
      return UnexpectedChar, 0;
    }
    return Ok, mag;
  }

  /** json_token_get_int32 */
  method GetInt32(token: Token) returns (r: Result, value: int)
    ensures Answers(token, -0x8000_0000, 0x7FFF_FFFF, r, value)
  {
    r, value := GetInt64(token);
    if r == Ok && (value < -0x8000_0000 || value > 0x7FFF_FFFF) {
      return UnexpectedChar, 0;
    }
  }

  /** The two refusals: invalid_state for what is no number, unexpected_char for one that does not fit. */
  lemma {:induction false} GetterRefuses(token: Token, lo: int, hi: int, r: Result, value: int)
    requires Answers(token, lo, hi, r, value)
    ensures r == InvalidState <==> token.kind != NumberToken
    ensures token.kind == NumberToken ==> r == Ok || r == UnexpectedChar
    ensures UINT64_MAX == 18446744073709551615 && INT64_MAX == 9223372036854775807
  {
  }

  /** A number token of the reader is accepted exactly when it has no fraction and no exponent and its value fits. */
  lemma {:induction false} GetterExact(n: Number, lo: int, hi: int, r: Result, value: int)
    requires Answers(Token(NumberToken, n.Text(), false), lo, hi, r, value)
    ensures r == Ok <==> n.frac == [] && n.exp == [] && AllDigits(n.whole)
                         && lo <= Signed(n.negative, DigitsValue(n.whole)) <= hi
    ensures r == Ok ==> value == Signed(n.negative, DigitsValue(n.whole))
  {
    NumberIsInteger(n);
    IntIsCanonical(n.whole);
  }
}
