/** Base64 as in section 4 of RFC 4648, by src/base64.c; NULL output arguments are left out. */
module Base64 {
  import opened Common

  const PAD: byte := 0x3D

  type sextet = v: int | 0 <= v < 64

  /** The encoding table: A to Z, a to z, 0 to 9, + and /. */
  function EncodeValue(v: sextet): byte {
    if v < 26 then 0x41 + v
    else if v < 52 then 0x61 + (v - 26)
    else if v < 62 then 0x30 + (v - 52)
    else if v == 62 then 0x2B
    else 0x2F
  }

  predicate InAlphabet(c: byte) {
    0x41 <= c <= 0x5A || 0x61 <= c <= 0x7A || 0x30 <= c <= 0x39 || c == 0x2B || c == 0x2F
  }

  /** decode_base64_value: bytes outside the alphabet count as zero. */
  function DecodeValue(c: byte): sextet {
    if 0x41 <= c <= 0x5A then c - 0x41
    else if 0x61 <= c <= 0x7A then c - 0x61 + 26
    else if 0x30 <= c <= 0x39 then c - 0x30 + 52
    else if c == 0x2B then 62
    else if c == 0x2F then 63
    else 0
  }

  lemma {:induction false} ValueRoundTrip(v: sextet, c: byte)
    ensures InAlphabet(EncodeValue(v)) && DecodeValue(EncodeValue(v)) == v && EncodeValue(v) != PAD
    ensures InAlphabet(c) ==> EncodeValue(DecodeValue(c)) == c
    ensures DecodeValue(PAD) == 0
  {
  }

  // ---------------------------------------------------------------- three bytes, four characters

  function Quad(a: byte, b: byte, c: byte): (q: bytes)
    ensures |q| == 4
  {
    [EncodeValue(a / 4), EncodeValue(a % 4 * 16 + b / 16), EncodeValue(b % 16 * 4 + c / 64), EncodeValue(c % 64)]
  }

  function Triple(p: byte, q: byte, r: byte, s: byte): (t: bytes)
    ensures |t| == 3
  {
    var a, b, c, d := DecodeValue(p), DecodeValue(q), DecodeValue(r), DecodeValue(s);
    [a * 4 + b / 16, b % 16 * 16 + c / 4, c % 4 * 64 + d]
  }

  lemma {:induction false} QuadThenTriple(a: byte, b: byte, c: byte)
    ensures var q := Quad(a, b, c); Triple(q[0], q[1], q[2], q[3]) == [a, b, c]
  {
    hide EncodeValue, DecodeValue, Quad, Triple;
    var w: sextet, x: sextet, y: sextet, z: sextet := a / 4, a % 4 * 16 + b / 16, b % 16 * 4 + c / 64, c % 64;
    ValueRoundTrip(w, PAD);
    ValueRoundTrip(x, PAD);
    ValueRoundTrip(y, PAD);
    ValueRoundTrip(z, PAD);
    QuadIs(a, b, c);
    TripleIs(EncodeValue(w), EncodeValue(x), EncodeValue(y), EncodeValue(z));
    Parts(a % 4, b / 16, b % 16, c / 64);
    Whole(a, b, c);
  }

  lemma {:induction false} Parts(a0: nat, b1: nat, b0: nat, c1: nat)
    requires b1 < 16 && c1 < 4
    ensures (a0 * 16 + b1) / 16 == a0 && (a0 * 16 + b1) % 16 == b1
    ensures (b0 * 4 + c1) / 4 == b0 && (b0 * 4 + c1) % 4 == c1
  {
  }

  lemma {:induction false} Whole(a: byte, b: byte, c: byte)
    ensures a / 4 * 4 + a % 4 == a && b / 16 * 16 + b % 16 == b && c / 64 * 64 + c % 64 == c
  {
  }

  lemma {:induction false} TripleThenQuad(p: byte, q: byte, r: byte, s: byte)
    requires InAlphabet(p) && InAlphabet(q) && InAlphabet(r) && InAlphabet(s)
    ensures var t := Triple(p, q, r, s); Quad(t[0], t[1], t[2]) == [p, q, r, s]
  {
    hide EncodeValue, DecodeValue, InAlphabet;
    ValueRoundTrip(0, p);
    ValueRoundTrip(0, q);
    ValueRoundTrip(0, r);
    ValueRoundTrip(0, s);
    SextetParts(DecodeValue(p), DecodeValue(q), DecodeValue(r), DecodeValue(s));
  }

  lemma {:induction false} SextetParts(w: sextet, x: sextet, y: sextet, z: sextet)
    ensures (w * 4 + x / 16) / 4 == w
    ensures (w * 4 + x / 16) % 4 * 16 + (x % 16 * 16 + y / 4) / 16 == x
    ensures (x % 16 * 16 + y / 4) % 16 * 4 + (y % 4 * 64 + z) / 64 == y
    ensures (y % 4 * 64 + z) % 64 == z
  {
    Parts(x % 16, y / 4, w, x / 16);
    Parts(y % 4, 0, 0, 0);
    assert (y % 4 * 64 + z) / 64 == y % 4 && (y % 4 * 64 + z) % 64 == z;
  }

  lemma {:induction false} SextetsOf(a1: nat, a0: nat, b1: nat, b0: nat, c1: nat, c0: nat)
    requires a1 < 64 && a0 < 4 && b1 < 16 && b0 < 16 && c1 < 4 && c0 < 64
    ensures var t := (4 * a1 + a0) * 0x10000 + (16 * b1 + b0) * 0x100 + (64 * c1 + c0);
            && t / 0x40000 == a1
            && t / 0x1000 == 64 * a1 + (16 * a0 + b1)
            && t / 0x40 == 64 * (64 * a1 + (16 * a0 + b1)) + (4 * b0 + c1)
            && t % 0x40 == c0
  {
  }

  /** How base64_encode reads the four sextets out of a 24-bit sum. */
  lemma {:induction false} EncodeShifts(a: byte, b: byte, c: byte)
    ensures var t := a * 0x10000 + b * 0x100 + c;
            && t / 0x40000 % 64 == a / 4
            && t / 0x1000 % 64 == a % 4 * 16 + b / 16
            && t / 0x40 % 64 == b % 16 * 4 + c / 64
            && t % 64 == c % 64
  {
    SextetsOf(a / 4, a % 4, b / 16, b % 16, c / 64, c % 64);
    Whole(a, b, c);
    LowSextet(0, a / 4);
    LowSextet(a / 4, 16 * (a % 4) + b / 16);
    LowSextet(64 * (a / 4) + (16 * (a % 4) + b / 16), 4 * (b % 16) + c / 64);
  }

  lemma {:induction false} BytesOf(w: nat, x1: nat, x0: nat, y1: nat, y0: nat, z: nat)
    requires w < 64 && x1 < 4 && x0 < 16 && y1 < 16 && y0 < 4 && z < 64
    ensures var t := w * 0x40000 + (16 * x1 + x0) * 0x1000 + (4 * y1 + y0) * 0x40 + z;
            && t / 0x10000 == 4 * w + x1
            && t / 0x100 == 256 * (4 * w + x1) + (16 * x0 + y1)
            && t % 0x100 == 64 * y0 + z
  {
  }

  /** How base64_decode reads the three bytes out of a 24-bit sum. */
  lemma {:induction false} DecodeShifts(w: sextet, x: sextet, y: sextet, z: sextet)
    ensures var t := w * 0x40000 + x * 0x1000 + y * 0x40 + z;
            && t / 0x10000 % 256 == w * 4 + x / 16
            && t / 0x100 % 256 == x % 16 * 16 + y / 4
            && t % 256 == y % 4 * 64 + z
  {
    BytesOf(w, x / 16, x % 16, y / 4, y % 4, z);
    assert 16 * (x / 16) + x % 16 == x && 4 * (y / 4) + y % 4 == y;
    LowByte(0, 4 * w + x / 16);
    LowByte(4 * w + x / 16, 16 * (x % 16) + y / 4);
  }

  lemma {:induction false} LowByte(high: nat, low: nat)
    requires low < 256
    ensures (256 * high + low) % 256 == low
  {
  }

  lemma {:induction false} LowSextet(high: nat, low: nat)
    requires low < 64
    ensures (64 * high + low) % 64 == low
  {
  }

  // ---------------------------------------------------------------- texts

  /** The encoding of RFC 4648: groups of three bytes, the last one padded. */
  function Encoded(d: bytes): (t: bytes)
    ensures |t| == 4 * ((|d| + 2) / 3)
    decreases |d|
  {
    if |d| == 0 then []
    else if |d| == 1 then Quad(d[0], 0, 0)[..2] + [PAD, PAD]
    else if |d| == 2 then Quad(d[0], d[1], 0)[..3] + [PAD]
    else Quad(d[0], d[1], d[2]) + Encoded(d[3..])
  }

  /** Three bytes for every four characters, padding read as zero. */
  function Triples(text: bytes): (d: bytes)
    requires |text| % 4 == 0
    ensures |d| == |text| / 4 * 3
    decreases |text|
  {
    if text == [] then [] else Triple(text[0], text[1], text[2], text[3]) + Triples(text[4..])
  }

  function DecodedSize(text: bytes): (n: nat)
    requires text != [] && |text| % 4 == 0
    ensures 1 <= n <= |text| / 4 * 3
  {
    |text| / 4 * 3 - (if text[|text| - 1] == PAD then 1 else 0) - (if text[|text| - 2] == PAD then 1 else 0)
  }

  function Decoded(text: bytes): bytes
    requires text != [] && |text| % 4 == 0
  {
    Triples(text)[..DecodedSize(text)]
  }

  /** A text that ends a canonical encoding: the bits that padding leaves over are zero. */
  predicate LastGroup(p: byte, q: byte, r: byte, s: byte) {
    InAlphabet(p) && InAlphabet(q)
    && ((InAlphabet(r) && InAlphabet(s))
        || (InAlphabet(r) && s == PAD && DecodeValue(r) % 4 == 0)
        || (r == PAD && s == PAD && DecodeValue(q) % 16 == 0))
  }

  predicate Canonical(text: bytes)
    decreases |text|
  {
    |text| >= 4
    && if |text| == 4 then LastGroup(text[0], text[1], text[2], text[3])
       else InAlphabet(text[0]) && InAlphabet(text[1]) && InAlphabet(text[2]) && InAlphabet(text[3])
            && Canonical(text[4..])
  }

  lemma {:induction false} CanonicalLength(text: bytes)
    requires Canonical(text)
    ensures text != [] && |text| % 4 == 0
    decreases |text|
  {
    hide LastGroup, InAlphabet;
    if |text| > 4 {
      CanonicalLength(text[4..]);
    }
  }

  // ---------------------------------------------------------------- round trips

  /** What the last group decodes to. */
  lemma {:induction false} PaddedThenTriple(a: byte, b: byte)
    ensures var q := Quad(a, 0, 0); Triple(q[0], q[1], PAD, PAD) == [a, 0, 0]
    ensures var q := Quad(a, b, 0); Triple(q[0], q[1], q[2], PAD) == [a, b, 0]
  {
    QuadThenTriple(a, 0, 0);
    QuadThenTriple(a, b, 0);
    hide EncodeValue, DecodeValue;
    ValueRoundTrip(0, PAD);
  }

  lemma {:induction false} QuadInAlphabet(a: byte, b: byte, c: byte)
    ensures var q := Quad(a, b, c);
            forall k :: 0 <= k < 4 ==> InAlphabet(q[k]) && q[k] != PAD
    ensures DecodeValue(Quad(a, 0, 0)[1]) % 16 == 0 && DecodeValue(Quad(a, b, 0)[2]) % 4 == 0
  {
    hide EncodeValue, DecodeValue, InAlphabet, Quad;
    QuadIs(a, b, c);
    QuadIs(a, 0, 0);
    QuadIs(a, b, 0);
    ValueRoundTrip(a / 4, PAD);
    ValueRoundTrip(a % 4 * 16 + b / 16, PAD);
    ValueRoundTrip(a % 4 * 16, PAD);
    ValueRoundTrip(b % 16 * 4 + c / 64, PAD);
    ValueRoundTrip(b % 16 * 4, PAD);
    ValueRoundTrip(c % 64, PAD);
    Parts(a % 4, 0, b % 16, 0);
  }

  lemma {:induction false} EncodedIsCanonical(d: bytes)
    requires d != []
    ensures Canonical(Encoded(d))
    decreases |d|
  {
    hide InAlphabet, DecodeValue, Quad;
    if |d| == 1 {
      QuadInAlphabet(d[0], 0, 0);
    } else if |d| == 2 {
      QuadInAlphabet(d[0], d[1], 0);
    } else {
      QuadInAlphabet(d[0], d[1], d[2]);
      var q, rest := Quad(d[0], d[1], d[2]), Encoded(d[3..]);
      assert (q + rest)[4..] == rest;
      if |d| > 3 {
        EncodedIsCanonical(d[3..]);
      }
    }
  }

  lemma {:induction false} GroupSize(q: bytes, rest: bytes)
    requires |q| == 4 && |rest| % 4 == 0
    ensures rest != [] ==> DecodedSize(q + rest) == 3 + DecodedSize(rest)
    ensures rest == [] && q[2] != PAD && q[3] != PAD ==> DecodedSize(q + rest) == 3
  {
  }

  lemma {:induction false} EncodedSizeShort(d: bytes)
    requires d != [] && |d| <= 2
    ensures DecodedSize(Encoded(d)) == |d|
  {
    hide InAlphabet, DecodeValue, Quad;
    QuadInAlphabet(d[0], if |d| == 2 then d[1] else 0, 0);
  }

  lemma {:induction false} EncodedFirst(d: bytes)
    requires |d| >= 3
    ensures Encoded(d) == Quad(d[0], d[1], d[2]) + Encoded(d[3..])
    ensures |d| == 3 <==> Encoded(d[3..]) == []
  {
    hide Quad;
  }

  lemma {:induction false} EncodedSize(d: bytes)
    requires d != []
    ensures DecodedSize(Encoded(d)) == |d|
    decreases |d|
  {
    hide InAlphabet, DecodeValue, Quad, Encoded, DecodedSize;
    if |d| <= 2 {
      EncodedSizeShort(d);
    } else {
      EncodedFirst(d);
      QuadInAlphabet(d[0], d[1], d[2]);
      GroupSize(Quad(d[0], d[1], d[2]), Encoded(d[3..]));
      if |d| > 3 {
        EncodedSize(d[3..]);
      }
    }
  }

  lemma {:induction false} EncodedTriples(d: bytes)
    ensures d <= Triples(Encoded(d))
    decreases |d|
  {
    hide Triple, Quad;
    if |d| == 1 {
      PaddedThenTriple(d[0], 0);
      assert Triples(Encoded(d)) == [d[0], 0, 0];
    } else if |d| == 2 {
      PaddedThenTriple(d[0], d[1]);
      assert Triples(Encoded(d)) == [d[0], d[1], 0];
    } else if |d| >= 3 {
      var q, rest := Quad(d[0], d[1], d[2]), Encoded(d[3..]);
      QuadThenTriple(d[0], d[1], d[2]);
      EncodedTriples(d[3..]);
      assert (q + rest)[4..] == rest;
      assert d == [d[0], d[1], d[2]] + d[3..];
    }
  }

  /** Decoding an encoding gives the input back. */
  lemma {:induction false} RoundTrip(d: bytes)
    requires d != []
    ensures Decoded(Encoded(d)) == d
  {
    EncodedSize(d);
    EncodedTriples(d);
  }

  /** Padding decodes like the letter A, and the bytes it stands for are zero in a canonical text. */
  lemma {:induction false} PaddingIsZero(p: byte, q: byte, r: byte)
    ensures Triple(p, q, r, PAD) == Triple(p, q, r, 0x41) && Triple(p, q, PAD, PAD) == Triple(p, q, 0x41, 0x41)
    ensures DecodeValue(r) % 4 == 0 ==> Triple(p, q, r, PAD)[2] == 0
    ensures DecodeValue(q) % 16 == 0 ==> Triple(p, q, PAD, PAD)[1] == 0 && Triple(p, q, PAD, PAD)[2] == 0
    ensures InAlphabet(0x41) && !InAlphabet(PAD)
  {
  }

  lemma {:induction false} LastGroupRoundTrip(p: byte, q: byte, r: byte, s: byte)
    requires LastGroup(p, q, r, s)
    ensures Encoded(Decoded([p, q, r, s])) == [p, q, r, s]
  {
    hide Triple, Quad, InAlphabet, DecodeValue;
    PaddingIsZero(p, q, r);
    OneGroup(p, q, r, s);
    var t := Triple(p, q, r, s);
    if s != PAD {
      TripleThenQuad(p, q, r, s);
      assert Encoded(t) == Quad(t[0], t[1], t[2]) + Encoded([]);
    } else if r != PAD {
      TripleThenQuad(p, q, r, 0x41);
      assert Encoded(t[..2]) == [p, q, r, 0x41][..3] + [PAD];
    } else {
      TripleThenQuad(p, q, 0x41, 0x41);
      assert Encoded(t[..1]) == [p, q, 0x41, 0x41][..2] + [PAD, PAD];
    }
  }

  lemma {:induction false} OneGroup(p: byte, q: byte, r: byte, s: byte)
    ensures Decoded([p, q, r, s])
            == Triple(p, q, r, s)[..3 - (if s == PAD then 1 else 0) - (if r == PAD then 1 else 0)]
  {
    hide Triple;
    var text := [p, q, r, s];
    assert text[4..] == [];
    assert Triples(text) == Triple(p, q, r, s) + [];
  }

  lemma {:induction false} CanonicalRoundTrip(text: bytes)
    requires Canonical(text)
    ensures text != [] && |text| % 4 == 0 && Encoded(Decoded(text)) == text
    decreases |text|
  {
    CanonicalLength(text);
    if |text| == 4 {
      LastGroupRoundTrip(text[0], text[1], text[2], text[3]);
      assert text == [text[0], text[1], text[2], text[3]];
    } else {
      hide LastGroup, InAlphabet;
      var rest := text[4..];
      CanonicalRoundTrip(rest);
      TripleThenQuad(text[0], text[1], text[2], text[3]);
      NextGroup(text);
    }
  }

  lemma {:induction false} NextGroup(text: bytes)
    requires |text| > 4 && |text| % 4 == 0
    ensures var rest, t := text[4..], Triple(text[0], text[1], text[2], text[3]);
            && |rest| % 4 == 0
            && Decoded(text) == t + Decoded(rest)
            && Encoded(Decoded(text)) == Quad(t[0], t[1], t[2]) + Encoded(Decoded(rest))
            && text == [text[0], text[1], text[2], text[3]] + rest
  {
    hide Triple, Quad;
    var rest, t := text[4..], Triple(text[0], text[1], text[2], text[3]);
    assert Decoded(text) == t + Decoded(rest);
    assert (t + Decoded(rest))[3..] == Decoded(rest);
  }

  /** Encoding after decoding is the identity on canonical texts, and on no other. */
  lemma {:induction false} CanonicalExact(text: bytes)
    requires text != [] && |text| % 4 == 0
    ensures Canonical(text) <==> Encoded(Decoded(text)) == text
  {
    if Canonical(text) {
      CanonicalRoundTrip(text);
    } else {
      EncodedIsCanonical(Decoded(text));
    }
  }

  /** A buffer whose beginning has been written. */
  function Overwritten(buffer: bytes, text: bytes): bytes
    requires |text| <= |buffer|
  {
    text + buffer[|text|..]
  }

  /** `s` with `t` in place of what stood from `j` on. */
  function Patched(s: bytes, j: nat, t: bytes): bytes
    requires j + |t| <= |s|
  {
    s[..j] + t + s[j + |t|..]
  }

  lemma {:induction false} PatchedAfter(was: bytes, done: bytes, t: bytes)
    requires |done| + |t| <= |was|
    ensures Patched(Overwritten(was, done), |done|, t) == Overwritten(was, done + t)
  {
  }

  lemma {:induction false} PatchedOver(was: bytes, front: bytes, back: bytes, t: bytes)
    requires |front| + |back| <= |was| && |t| == |back|
    ensures Patched(Overwritten(was, front + back), |front|, t) == Overwritten(was, front + t)
  {
  }

  // ---------------------------------------------------------------- base64_encode

  /** 4U * ((size + 2U) / 3U), in 32-bit arithmetic. */
  function EncodedSize32(n: nat): nat {
    4 * ((n + 2) % TWO_TO_THE_32 / 3) % TWO_TO_THE_32
  }

  const MAX_INPUT := 3 * (0x4000_0000 - 1)

  /** The size is right exactly up to 3 * (2^30 - 1) bytes. */
  lemma {:induction false} EncodedSizeExact(n: nat)
    requires n < TWO_TO_THE_32
    ensures EncodedSize32(n) == 4 * ((n + 2) / 3) <==> n <= MAX_INPUT
  {
  }

  /** The encoding before padding: a last group of fewer than three bytes is filled with zeros. */
  function Filled(d: bytes): (t: bytes)
    ensures |t| == 4 * ((|d| + 2) / 3)
    decreases |d|
  {
    if |d| == 0 then []
    else if |d| == 1 then Quad(d[0], 0, 0)
    else if |d| == 2 then Quad(d[0], d[1], 0)
    else Quad(d[0], d[1], d[2]) + Filled(d[3..])
  }

  function PaddingOf(n: nat): nat {
    if n % 3 == 0 then 0 else if n % 3 == 1 then 2 else 1
  }

  function Pads(count: nat): bytes {
    seq(count, _ => PAD)
  }

  lemma {:induction false} TakeBehind(q: bytes, s: bytes, n: nat)
    requires n <= |s|
    ensures (q + s)[..|q| + n] == q + s[..n]
  {
  }

  /** Padding overwrites the end of the last group. */
  lemma {:induction false} PaddedEnd(d: bytes)
    ensures var m, p := |Filled(d)|, PaddingOf(|d|); p <= m && Encoded(d) == Filled(d)[..m - p] + Pads(p)
    decreases |d|
  {
    hide Quad;
    if |d| >= 3 {
      var q, f, p := Quad(d[0], d[1], d[2]), Filled(d[3..]), PaddingOf(|d|);
      PaddedEnd(d[3..]);
      SamePadding(|d|);
      TakeBehind(q, f, |f| - p);
      Assoc(q, f[..|f| - p], Pads(p));
    } else if d == [] {
      assert Pads(0) == [];
    } else {
      assert Pads(1) == [PAD] && Pads(2) == [PAD, PAD];
    }
  }

  lemma {:induction false} SamePadding(n: nat)
    requires n >= 3
    ensures PaddingOf(n) == PaddingOf(n - 3)
  {
  }

  /** What one turn of the encoding loop writes. */
  lemma {:induction false} FilledNext(d: bytes, i: nat)
    requires i < |d|
    ensures var next := if i + 3 <= |d| then i + 3 else |d|;
            Filled(d[i..])
            == Quad(d[i], if i + 1 < |d| then d[i + 1] else 0, if i + 2 < |d| then d[i + 2] else 0) + Filled(d[next..])
  {
    hide Quad;
    var rest := d[i..];
    if |rest| >= 3 {
      assert rest[3..] == d[i + 3..];
    } else {
      assert d[|d|..] == [];
    }
  }

  /** The four stores of the encoding loop. */
  method StoreQuad(encoded: array<byte>, j: nat, a: byte, b: byte, c: byte)
    requires j + 4 <= encoded.Length
    modifies encoded
    ensures encoded[..] == Patched(old(encoded[..]), j, Quad(a, b, c))
  {
    hide Quad, EncodeValue;
    var triple := a * 0x10000 + b * 0x100 + c;
    EncodeShifts(a, b, c);
    QuadIs(a, b, c);
    encoded[j] := EncodeValue(triple / 0x40000 % 64);
    encoded[j + 1] := EncodeValue(triple / 0x1000 % 64);
    encoded[j + 2] := EncodeValue(triple / 0x40 % 64);
    encoded[j + 3] := EncodeValue(triple % 64);
  }

  /** The padding loop. */
  method Pad(encoded: array<byte>, n: nat, count: nat)
    requires count <= n <= encoded.Length
    modifies encoded
    ensures encoded[..] == Patched(old(encoded[..]), n - count, Pads(count))
  {
    for k := 0 to count
      invariant encoded[n..] == old(encoded[n..]) && encoded[..n - count] == old(encoded[..n - count])
      invariant forall m :: n - k <= m < n ==> encoded[m] == PAD
    {
      encoded[n - 1 - k] := PAD;
    }
  }

  /** base64_encode: None when the destination is too small. */
  method Encode(data: bytes, encoded: array<byte>) returns (size: Option<nat>)
    requires |data| <= MAX_INPUT
    modifies encoded
    ensures var n := 4 * ((|data| + 2) / 3);
            if encoded.Length < n then size == None && encoded[..] == old(encoded[..])
            else size == Some(n) && encoded[..] == Overwritten(old(encoded[..]), Encoded(data))
  {
    hide Quad, Filled, Encoded, PaddingOf, EncodedSize32, EncodingAt, Overwritten, Patched, Pads;
    EncodedSizeExact(|data|);
    var n := EncodedSize32(|data|);
    if encoded.Length < n {
      return None;
    }
    var i, j := 0, 0;
    ghost var was := encoded[..];
    EncodingFirst(data, was);
    while i < |data|
      invariant 0 <= i <= |data| && j >= 0
      invariant EncodingAt(data, was, encoded[..], i, j)
    {
      EncodingNext(data, was, encoded[..], i, j);
      var a: byte := data[i];
      i := i + 1;
      var b: byte := 0;
      if i < |data| {
        b := data[i];
        i := i + 1;
      }
      var c: byte := 0;
      if i < |data| {
        c := data[i];
        i := i + 1;
      }
      StoreQuad(encoded, j, a, b, c);
      j := j + 4;
    }
    EncodingLast(data, was, encoded[..], j);
    Pad(encoded, n, PaddingOf(|data|));
    return Some(n);
  }

  /** The encoding loop has read `i` bytes and written `j`. */
  ghost predicate EncodingAt(data: bytes, was: bytes, now: bytes, i: nat, j: nat) {
    && i <= |data| && j <= |Filled(data)| <= |was|
    && Filled(data)[j..] == Filled(data[i..])
    && now == Overwritten(was, Filled(data)[..j])
  }

  lemma {:induction false} EncodingFirst(data: bytes, was: bytes)
    requires |Filled(data)| <= |was|
    ensures EncodingAt(data, was, was, 0, 0)
  {
    assert data[0..] == data;
  }

  lemma {:induction false} EncodingNext(data: bytes, was: bytes, now: bytes, i: nat, j: nat)
    requires EncodingAt(data, was, now, i, j) && i < |data|
    ensures |now| == |was| && j + 4 <= |was|
    ensures var q := Quad(data[i], if i + 1 < |data| then data[i + 1] else 0,
                          if i + 2 < |data| then data[i + 2] else 0);
            EncodingAt(data, was, Patched(now, j, q), if i + 3 <= |data| then i + 3 else |data|, j + 4)
  {
    hide Quad, Filled, Patched;
    var q := Quad(data[i], if i + 1 < |data| then data[i + 1] else 0, if i + 2 < |data| then data[i + 2] else 0);
    FilledNext(data, i);
    OneMoreQuad(Filled(data), j, q, Filled(data[if i + 3 <= |data| then i + 3 else |data|..]));
    PatchedAfter(was, Filled(data)[..j], q);
  }

  lemma {:induction false} OneMoreQuad(text: bytes, j: nat, q: bytes, rest: bytes)
    requires j <= |text| && |q| == 4 && text[j..] == q + rest
    ensures j + 4 <= |text| && text[j + 4..] == rest && text[..j + 4] == text[..j] + q
  {
    DropDrop(text, j, 4);
    assert text[j..j + 4] == text[j..][..4];
    assert text[..j + 4] == text[..j] + text[j..j + 4];
  }

  lemma {:induction false} EncodingLast(data: bytes, was: bytes, now: bytes, j: nat)
    requires EncodingAt(data, was, now, |data|, j)
    ensures var n, p := |Filled(data)|, PaddingOf(|data|);
            p <= n <= |now| && |Pads(p)| == p && n == |Encoded(data)| <= |was|
            && Patched(now, n - p, Pads(p)) == Overwritten(was, Encoded(data))
  {
    hide Encoded, Patched, Overwritten;
    FilledNone(data);
    hide Filled;
    var text, p := Filled(data), PaddingOf(|data|);
    PaddedEnd(data);
    assert j == |text| && text[..j] == text;
    assert text == text[..|text| - p] + text[|text| - p..];
    PatchedOver(was, text[..|text| - p], text[|text| - p..], Pads(p));
    OverwrittenSize(was, text);
  }

  lemma {:induction false} OverwrittenSize(was: bytes, text: bytes)
    requires |text| <= |was|
    ensures |Overwritten(was, text)| == |was|
  {
  }

  lemma {:induction false} QuadIs(a: byte, b: byte, c: byte)
    ensures Quad(a, b, c)
            == [EncodeValue(a / 4), EncodeValue(a % 4 * 16 + b / 16),
                EncodeValue(b % 16 * 4 + c / 64), EncodeValue(c % 64)]
  {
  }

  lemma {:induction false} FilledNone(d: bytes)
    ensures d[|d|..] == [] && Filled(d[|d|..]) == []
  {
  }

  // ---------------------------------------------------------------- base64_decode

  /** A character, or padding, as its six bits. */
  function Sextet(c: byte): (v: sextet)
    ensures v == DecodeValue(c)
  {
    if c == PAD then 0 else DecodeValue(c)
  }

  /** The stores of the decoding loop: up to three bytes, none past the decoded size. */
  method StoreTriple(decoded: array<byte>, j: nat, n: nat, p: byte, q: byte, r: byte, s: byte) returns (k: nat)
    requires j <= n <= decoded.Length
    modifies decoded
    ensures k == Min(j + 3, n)
    ensures decoded[..] == Patched(old(decoded[..]), j, Triple(p, q, r, s)[..k - j])
  {
    hide Triple, Patched, Sextet;
    var w: nat, x: nat, y: nat, z: nat := Sextet(p), Sextet(q), Sextet(r), Sextet(s);
    var triple := w * 0x40000 + x * 0x1000 + y * 0x40 + z;
    TripleOfSum(p, q, r, s);
    ghost var was, t := decoded[..], Triple(p, q, r, s);
    k := j;
    PatchedNone(was, j, t);
    if k < n {
      decoded[k] := triple / 0x10000 % 256;
      PatchedNext(was, j, t, 0);
      k := k + 1;
    }
    if k < n {
      decoded[k] := triple / 0x100 % 256;
      PatchedNext(was, j, t, 1);
      k := k + 1;
    }
    if k < n {
      decoded[k] := triple % 256;
      PatchedNext(was, j, t, 2);
      k := k + 1;
    }
  }

  lemma {:induction false} PatchedNone(s: bytes, j: nat, t: bytes)
    requires j <= |s|
    ensures Patched(s, j, t[..0]) == s
  {
  }

  lemma {:induction false} PatchedNext(s: bytes, j: nat, t: bytes, m: nat)
    requires m < |t| && j + m < |s|
    ensures |Patched(s, j, t[..m])| == |s|
    ensures Patched(s, j, t[..m + 1]) == Patched(s, j, t[..m])[j + m := t[m]]
  {
  }

  lemma {:induction false} TripleIs(p: byte, q: byte, r: byte, s: byte)
    ensures Triple(p, q, r, s)
            == [DecodeValue(p) * 4 + DecodeValue(q) / 16, DecodeValue(q) % 16 * 16 + DecodeValue(r) / 4,
                DecodeValue(r) % 4 * 64 + DecodeValue(s)]
  {
  }

  /** The stores of the decoding loop, from the sum of the four sextets. */
  lemma {:induction false} TripleOfSum(p: byte, q: byte, r: byte, s: byte)
    ensures |Triple(p, q, r, s)| == 3
    ensures var sum: nat := Sextet(p) * 0x40000 + Sextet(q) * 0x1000 + Sextet(r) * 0x40 + Sextet(s);
            && sum / 0x10000 % 256 == Triple(p, q, r, s)[0]
            && sum / 0x100 % 256 == Triple(p, q, r, s)[1]
            && sum % 256 == Triple(p, q, r, s)[2]
  {
    DecodeShifts(Sextet(p), Sextet(q), Sextet(r), Sextet(s));
  }

  /** base64_decode: None for a text that is not whole groups of four, or too small a destination. */
  method Decode(data: bytes, decoded: array<byte>) returns (size: Option<nat>)
    requires data != [] && |data| < TWO_TO_THE_32
    modifies decoded
    ensures if |data| % 4 != 0 || decoded.Length < DecodedSize(data)
            then size == None && decoded[..] == old(decoded[..])
            else size == Some(DecodedSize(data)) && decoded[..] == Overwritten(old(decoded[..]), Decoded(data))
  {
    if |data| % 4 != 0 {
      return None;
    }
    var n := |data| / 4 * 3;
    if data[|data| - 1] == PAD {
      n := n - 1;
    }
    if data[|data| - 2] == PAD {
      n := n - 1;
    }
    if decoded.Length < n {
      return None;
    }
    assert n == DecodedSize(data);
    DecodeGroups(data, decoded, n);
    return Some(n);
  }

  /** The decoding loop has read `g` groups and written `j` bytes of the `n` to write. */
  ghost predicate DecodingAt(data: bytes, was: bytes, now: bytes, g: nat, j: nat, n: nat) {
    && |data| % 4 == 0 && 4 * g <= |data| && n <= |data| / 4 * 3 && n <= |was|
    && j == Min(3 * g, n)
    && now == Overwritten(was, Triples(data)[..j])
  }

  lemma {:induction false} DecodingFirst(data: bytes, was: bytes, n: nat)
    requires |data| % 4 == 0 && n <= |data| / 4 * 3 && n <= |was|
    ensures DecodingAt(data, was, was, 0, 0, n)
  {
  }

  lemma {:induction false} DecodingNext(data: bytes, was: bytes, now: bytes, g: nat, j: nat, n: nat)
    requires DecodingAt(data, was, now, g, j, n) && 4 * g < |data|
    ensures 4 * g + 4 <= |data| && |now| == |was| && j <= n <= |was|
    ensures var i, k := 4 * g, Min(j + 3, n);
            var t := Triple(data[i], data[i + 1], data[i + 2], data[i + 3]);
            && j <= k <= j + 3 && k <= n
            && DecodingAt(data, was, Patched(now, j, t[..k - j]), g + 1, k, n)
  {
    TriplesAt(data, g);
    hide Triples, Triple;
    OneMoreTriple(Triples(data), was, 3 * g, n, Triple(data[4 * g], data[4 * g + 1], data[4 * g + 2], data[4 * g + 3]));
  }

  lemma {:induction false} DecodingLast(data: bytes, was: bytes, now: bytes, g: nat, j: nat, n: nat)
    requires data != [] && DecodingAt(data, was, now, g, j, n) && 4 * g == |data| && n == DecodedSize(data)
    ensures now == Overwritten(was, Decoded(data))
  {
  }

  /** The decoding loop. */
  method DecodeGroups(data: bytes, decoded: array<byte>, n: nat)
    requires data != [] && |data| % 4 == 0 && n == DecodedSize(data) <= decoded.Length
    modifies decoded
    ensures decoded[..] == Overwritten(old(decoded[..]), Decoded(data))
  {
    hide Triples, Triple, Min, DecodedSize, Decoded, Patched, Overwritten, DecodingAt;
    var i, j := 0, 0;
    ghost var g, was := 0, decoded[..];
    DecodingFirst(data, was, n);
    while i < |data|
      invariant i == 4 * g <= |data| && 0 <= j <= n && g >= 0
      invariant DecodingAt(data, was, decoded[..], g, j, n)
    {
      DecodingNext(data, was, decoded[..], g, j, n);
      j := StoreTriple(decoded, j, n, data[i], data[i + 1], data[i + 2], data[i + 3]);
      i := i + 4;
      g := g + 1;
    }
    DecodingLast(data, was, decoded[..], g, j, n);
  }

  lemma {:induction false} FirstTriple(text: bytes)
    requires |text| % 4 == 0 && text != []
    ensures Triples(text) == Triple(text[0], text[1], text[2], text[3]) + Triples(text[4..])
  {
    hide Triple;
  }

  lemma {:induction false} LaterSlice(t: bytes, rest: bytes, m: nat)
    requires |t| == 3 && m + 3 <= |rest|
    ensures (t + rest)[m + 3..m + 6] == rest[m..m + 3]
    ensures (t + rest)[..3] == t
  {
  }

  lemma {:induction false} TriplesAt(text: bytes, g: nat)
    requires |text| % 4 == 0 && 4 * g < |text|
    ensures 4 * g + 4 <= |text| && 3 * g + 3 <= |Triples(text)|
    ensures Triples(text)[3 * g..3 * g + 3] == Triple(text[4 * g], text[4 * g + 1], text[4 * g + 2], text[4 * g + 3])
    decreases g
  {
    hide Triple, Triples;
    FirstTriple(text);
    var t, rest := Triple(text[0], text[1], text[2], text[3]), text[4..];
    if g > 0 {
      TriplesAt(rest, g - 1);
      LaterSlice(t, Triples(rest), 3 * (g - 1));
      var i := 4 * (g - 1);
      assert rest[i] == text[i + 4] && rest[i + 1] == text[i + 5];
      assert rest[i + 2] == text[i + 6] && rest[i + 3] == text[i + 7];
    }
  }

  lemma {:induction false} SliceTake(s: bytes, m: nat, k: nat)
    requires m + 3 <= |s| && k <= 3
    ensures s[..m] + s[m..m + 3][..k] == s[..m + k]
  {
  }

  lemma {:induction false} OneMoreTriple(all: bytes, was: bytes, m: nat, n: nat, t: bytes)
    requires m + 3 <= |all| && n <= |all| && n <= |was| && |t| == 3 && all[m..m + 3] == t
    ensures var j, k := Min(m, n), Min(m + 3, n);
            && Min(j + 3, n) == k && j <= k <= n && k - j <= 3
            && Patched(Overwritten(was, all[..j]), j, t[..k - j]) == Overwritten(was, all[..k])
  {
    hide Patched, Overwritten;
    var j, k := Min(m, n), Min(m + 3, n);
    PatchedAfter(was, all[..j], t[..k - j]);
    if m <= n {
      SliceTake(all, m, k - j);
    } else {
      EmptyRight(all[..j]);
    }
  }

  // ---------------------------------------------------------------- section 4 of RFC 4648, bit by bit

  const UPPER_CASE := "ABCDEFGHIJKLMNOPQRSTUVWXYZ"
  const LOWER_CASE := "abcdefghijklmnopqrstuvwxyz"
  const DIGITS := "0123456789"

  /** Table 1 of RFC 4648. */
  const ALPHABET := UPPER_CASE + LOWER_CASE + DIGITS + "+/"

  lemma {:induction false} UpperAt(v: nat)
    ensures |UPPER_CASE| == 26 && (v < 26 ==> UPPER_CASE[v] as int == 0x41 + v)
  {
  }

  lemma {:induction false} LowerAt(v: nat)
    ensures |LOWER_CASE| == 26 && (v < 26 ==> LOWER_CASE[v] as int == 0x61 + v)
  {
  }

  lemma {:induction false} DigitAt(v: nat)
    ensures |DIGITS| == 10 && (v < 10 ==> DIGITS[v] as int == 0x30 + v)
  {
  }

  lemma {:induction false} PlaceInAlphabet(v: sextet)
    ensures |ALPHABET| == 64 && EncodeValue(v) == ALPHABET[v] as int
  {
    hide UPPER_CASE, LOWER_CASE, DIGITS;
    UpperAt(v);
    LowerAt(if v < 26 then 0 else v - 26);
    DigitAt(if v < 52 then 0 else v - 52);
  }

  /** The value of a character is its place in the alphabet; any other byte counts as zero. */
  lemma {:induction false} ValueIsPlace(c: byte)
    ensures forall v: sextet :: c == ALPHABET[v] as int ==> DecodeValue(c) == v
    ensures (forall v: sextet :: c != ALPHABET[v] as int) ==> DecodeValue(c) == 0
    ensures InAlphabet(c) <==> exists v: sextet :: c == ALPHABET[v] as int
  {
    forall v: sextet ensures EncodeValue(v) == ALPHABET[v] as int {
      PlaceInAlphabet(v);
    }
    ValueRoundTrip(0, c);
    forall v: sextet ensures InAlphabet(EncodeValue(v)) && DecodeValue(EncodeValue(v)) == v {
      ValueRoundTrip(v, c);
    }
    if InAlphabet(c) {
      assert EncodeValue(DecodeValue(c)) == c;
    }
  }

  function PowerOfTwo(k: nat): nat
    requires k < 8
  {
    [1, 2, 4, 8, 16, 32, 64, 128][k]
  }

  /** Bit `n` of the bytes, the first bit of each being its highest; zero bits follow. */
  function Bit(d: bytes, n: nat): nat {
    if n / 8 < |d| then ByteBit(d[n / 8], n % 8) else 0
  }

  function ByteBit(b: byte, k: nat): nat
    requires k < 8
  {
    b / PowerOfTwo(7 - k) % 2
  }

  /** The number that six bits from bit `n` on make. */
  function SixBits(d: bytes, n: nat): nat {
    32 * Bit(d, n) + 16 * Bit(d, n + 1) + 8 * Bit(d, n + 2) + 4 * Bit(d, n + 3) + 2 * Bit(d, n + 4) + Bit(d, n + 5)
  }

  lemma {:induction false} ByteBitIs(b: byte)
    ensures ByteBit(b, 0) == b / 128 % 2 && ByteBit(b, 1) == b / 64 % 2 && ByteBit(b, 2) == b / 32 % 2
    ensures ByteBit(b, 3) == b / 16 % 2 && ByteBit(b, 4) == b / 8 % 2 && ByteBit(b, 5) == b / 4 % 2
    ensures ByteBit(b, 6) == b / 2 % 2 && ByteBit(b, 7) == b % 2
  {
  }

  lemma {:induction false} Halves(b: nat)
    ensures b / 4 == b / 2 / 2 && b / 8 == b / 4 / 2 && b / 16 == b / 8 / 2
    ensures b / 32 == b / 16 / 2 && b / 64 == b / 32 / 2 && b / 128 == b / 64 / 2
  {
  }

  lemma {:induction false} TwoParts(h: nat, half: nat)
    requires half == h / 2
    ensures h == 2 * half + h % 2
  {
  }

  lemma {:induction false} FourParts(b: nat, h1: nat, h2: nat, h3: nat, h4: nat)
    requires h1 == b / 2 && h2 == h1 / 2 && h3 == h2 / 2 && h4 == h3 / 2
    ensures b == 16 * h4 + 8 * (h3 % 2) + 4 * (h2 % 2) + 2 * (h1 % 2) + b % 2
  {
    TwoParts(b, h1);
    TwoParts(h1, h2);
    TwoParts(h2, h3);
    TwoParts(h3, h4);
  }

  lemma {:induction false} BitBound(b: byte, k: nat)
    requires k < 8
    ensures 0 <= ByteBit(b, k) < 2
  {
  }

  lemma {:induction false} ByteBits(b: byte)
    ensures b == 128 * ByteBit(b, 0) + 64 * ByteBit(b, 1) + 32 * ByteBit(b, 2) + 16 * ByteBit(b, 3)
                 + 8 * ByteBit(b, 4) + 4 * ByteBit(b, 5) + 2 * ByteBit(b, 6) + ByteBit(b, 7)
    ensures forall k :: 0 <= k < 8 ==> 0 <= ByteBit(b, k) < 2
  {
    hide ByteBit;
    ByteBitIs(b);
    ByteSum(b);
    forall k | 0 <= k < 8 ensures 0 <= ByteBit(b, k) < 2 {
      BitBound(b, k);
    }
  }

  lemma {:induction false} ByteSum(b: byte)
    ensures b == 128 * (b / 128 % 2) + 64 * (b / 64 % 2) + 32 * (b / 32 % 2) + 16 * (b / 16 % 2)
                 + 8 * (b / 8 % 2) + 4 * (b / 4 % 2) + 2 * (b / 2 % 2) + b % 2
  {
    Halves(b);
    FourParts(b, b / 2, b / 4, b / 8, b / 16);
    FourParts(b / 16, b / 32, b / 64, b / 128, 0);
  }

  /** The four groups of six bits of three bytes. */
  lemma {:induction false} QuadBits(a: byte, b: byte, c: byte)
    ensures var d: bytes := [a, b, c];
            && SixBits(d, 0) == a / 4
            && SixBits(d, 6) == a % 4 * 16 + b / 16
            && SixBits(d, 12) == b % 16 * 4 + c / 64
            && SixBits(d, 18) == c % 64
  {
    hide ByteBit;
    ByteBits(a);
    ByteBits(b);
    ByteBits(c);
  }

  lemma {:induction false} BitsBehind(d: bytes, n: nat)
    requires |d| >= 3
    ensures SixBits(d, n + 24) == SixBits(d[3..], n)
    ensures n <= 18 ==> SixBits(d, n) == SixBits([d[0], d[1], d[2]], n)
  {
    hide ByteBit;
    forall m: nat ensures Bit(d, m + 24) == Bit(d[3..], m) {
      assert (m + 24) / 8 == m / 8 + 3 && (m + 24) % 8 == m % 8;
    }
    forall m: nat | m < 24 ensures Bit(d, m) == Bit([d[0], d[1], d[2]], m) {
    }
  }

  /** Missing bytes count as zero. */
  lemma {:induction false} BitsPadded(d: bytes, n: nat)
    requires |d| <= 3
    ensures SixBits(d, n) == SixBits(d + [0, 0, 0][|d|..], n)
  {
    ByteBits(0);
    forall m: nat ensures Bit(d, m) == Bit(d + [0, 0, 0][|d|..], m) {
    }
  }

  /**
   The encoding, character by character: character `k` is the one at the place in the alphabet that the bits
   from 6 * k on make, and behind the last bit there is nothing but the padding character.
   */
  lemma {:induction false} EncodedExact(d: bytes, k: nat)
    requires k < |Encoded(d)|
    ensures 6 * k < 8 * |d| ==> SixBits(d, 6 * k) < 64 && Encoded(d)[k] == ALPHABET[SixBits(d, 6 * k)] as int
    ensures 6 * k >= 8 * |d| ==> Encoded(d)[k] == '=' as int
    decreases |d|
  {
    hide SixBits, EncodeValue;
    if |d| < 3 {
      BitsPadded(d, 6 * k);
      QuadAt(d[0], if |d| > 1 then d[1] else 0, 0, k);
      assert d + [0, 0, 0][|d|..] == [d[0], if |d| > 1 then d[1] else 0, 0];
    } else if k < 4 {
      BitsBehind(d, 6 * k);
      QuadAt(d[0], d[1], d[2], k);
    } else {
      BitsBehind(d, 6 * (k - 4));
      EncodedExact(d[3..], k - 4);
    }
  }

  lemma {:induction false} QuadAt(a: byte, b: byte, c: byte, k: nat)
    requires k < 4
    ensures SixBits([a, b, c], 6 * k) < 64
    ensures Quad(a, b, c)[k] == ALPHABET[SixBits([a, b, c], 6 * k)] as int
  {
    hide SixBits, EncodeValue, Quad, ALPHABET;
    QuadIs(a, b, c);
    QuadBits(a, b, c);
    PlaceInAlphabet(a / 4);
    PlaceInAlphabet(a % 4 * 16 + b / 16);
    PlaceInAlphabet(b % 16 * 4 + c / 64);
    PlaceInAlphabet(c % 64);
  }

  /**
   The decoding, bit by bit: the six bits from bit 6 * k on are the place of character `k` in the alphabet, zero
   for a character that is not in it; and of the last bytes one is left out for either of the last
   two characters that is the padding character.
   */
  lemma {:induction false} DecodedExact(text: bytes, k: nat)
    requires |text| % 4 == 0 && k < |text|
    ensures SixBits(Triples(text), 6 * k) == DecodeValue(text[k])
    ensures Decoded(text) <= Triples(text)
    ensures |Decoded(text)| == |text| / 4 * 3 - (if text[|text| - 1] == '=' as int then 1 else 0)
                                              - (if text[|text| - 2] == '=' as int then 1 else 0)
  {
    hide SixBits, DecodeValue, Triples;
    SextetAt(text, k);
  }

  lemma {:induction false} SextetAt(text: bytes, k: nat)
    requires |text| % 4 == 0 && k < |text|
    ensures SixBits(Triples(text), 6 * k) == DecodeValue(text[k])
    decreases |text|
  {
    hide SixBits, DecodeValue, Triple;
    var t := Triple(text[0], text[1], text[2], text[3]);
    assert Triples(text) == t + Triples(text[4..]);
    if k < 4 {
      BitsBehind(Triples(text), 6 * k);
      assert [t[0], t[1], t[2]] == t;
      TripleBits(text[0], text[1], text[2], text[3]);
    } else {
      BitsBehind(Triples(text), 6 * (k - 4));
      assert (t + Triples(text[4..]))[3..] == Triples(text[4..]);
      SextetAt(text[4..], k - 4);
    }
  }

  lemma {:induction false} TripleBits(p: byte, q: byte, r: byte, s: byte)
    ensures var t := Triple(p, q, r, s);
            && SixBits(t, 0) == DecodeValue(p) && SixBits(t, 6) == DecodeValue(q)
            && SixBits(t, 12) == DecodeValue(r) && SixBits(t, 18) == DecodeValue(s)
  {
    hide SixBits, DecodeValue, Triple;
    TripleIs(p, q, r, s);
    var t := Triple(p, q, r, s);
    QuadBits(t[0], t[1], t[2]);
    assert [t[0], t[1], t[2]] == t;
    SextetParts(DecodeValue(p), DecodeValue(q), DecodeValue(r), DecodeValue(s));
  }
}
