/**
 String access of src/json_token.c: unescaping into a caller's buffer, and the chunked
 comparison of a token with an expected text.
 */
module JsonTokens {
  import opened Common
  import opened JsonLexical
  import opened JsonGrammar
  import opened JsonStrings

  /** A span: NULL, or memory that may be of length zero. */
  datatype Span = NullSpan | Memory(data: bytes)

  function Data(s: Span): bytes {
    if s == NullSpan then [] else s.data
  }

  /** span_slice yields NULL for an empty slice. */
  function Slice(text: bytes): Span {
    if text == [] then NullSpan else Memory(text)
  }

  predicate IsText(token: Token) {
    token.kind == StringToken || token.kind == PropertyName
  }

  /** The bytes a string or name token stands for. */
  function Meaning(token: Token): Option<bytes> {
    Unescape(token.text)
  }

  /** What the reader guarantees of its string and name tokens. */
  predicate FromReader(token: Token) {
    IsText(token) && IsBody(token.text) && token.escaped == (BACKSLASH in token.text)
  }

  // ---------------------------------------------------------------- unescaping into a buffer

  /** Copies `buf` to index `at` when it fits: the writes of span_copy_u8, encode_utf8 and span_copy. */
  method CopyBytes(dst: array<byte>, at: nat, buf: bytes) returns (good: bool, next: nat)
    requires at <= dst.Length
    modifies dst
    ensures good <==> at + |buf| <= dst.Length
    ensures next == if good then at + |buf| else at
    ensures dst[..next] == old(dst[..at]) + (if good then buf else [])
    ensures forall k :: next <= k < dst.Length ==> dst[k] == old(dst[k])
  {
    if dst.Length - at < |buf| {
      return false, at;
    }
    for k := 0 to |buf|
      invariant dst[..at + k] == old(dst[..at]) + buf[..k]
      invariant forall j :: at + |buf| <= j < dst.Length ==> dst[j] == old(dst[j])
    {
      dst[at + k] := buf[k];
    }
    return true, at + |buf|;
  }

  /** read_hex4: four hex digits at index `idx`. */
  method ReadHex4(p: bytes, idx: nat) returns (unit: Option<nat>)
    requires idx <= |p|
    ensures unit == Hex4(p[idx..])
  {
    if idx + 4 > |p| {
      return None;
    }
    var q := p[idx..];
    var v := 0;
    for k := 0 to 4
      invariant k > 0 ==> IsHexDigit(q[0])
      invariant k > 1 ==> IsHexDigit(q[1])
      invariant k > 2 ==> IsHexDigit(q[2])
      invariant k > 3 ==> IsHexDigit(q[3])
      invariant v == if k == 0 then 0
                     else if k == 1 then HexValue(q[0])
                     else if k == 2 then HexValue(q[0]) * 16 + HexValue(q[1])
                     else if k == 3 then (HexValue(q[0]) * 16 + HexValue(q[1])) * 16 + HexValue(q[2])
                     else ((HexValue(q[0]) * 16 + HexValue(q[1])) * 16 + HexValue(q[2])) * 16 + HexValue(q[3])
    {
      var h := HexValue(p[idx + k]);
      if h < 0 {
        return None;
      }
      v := v * 16 + h;
    }
    return Some(v);
  }

  /** The first part of an escape of unescape_into: what the escape at `p[i]` stands for, and its size. */
  method ReadEscape(p: bytes, i: nat) returns (piece: Option<Piece>)
    requires i < |p| && p[i] == BACKSLASH
    ensures piece == FirstPiece(p[i..])
  {
    hide Hex4, EncodeUtf8;
    if i + 1 >= |p| {
      return None;
    }
    var e := p[i + 1];
    var literal := SimpleEscapeValue(e);
    if literal.Some? {
      return Some(Piece(2, [literal.value]));
    }
    if e != 0x75 {
      return None;
    }
    DropDrop(p, i, 2);
    var unit := ReadHex4(p, i + 2);
    if unit == None {
      return None;
    }
    if IsHighSurrogate(unit.value) {
      if i + 12 > |p| || p[i + 6] != BACKSLASH || p[i + 7] != 0x75 {
        return None;
      }
      DropDrop(p, i, 8);
      var low := ReadHex4(p, i + 8);
      if low == None || !IsLowSurrogate(low.value) {
        return None;
      }
      return Some(Piece(12, EncodeUtf8(PairValue(unit.value, low.value))));
    }
    if IsLowSurrogate(unit.value) {
      return None;
    }
    return Some(Piece(6, EncodeUtf8(unit.value)));
  }

  /** unescape_into: the unescaped bytes go to `dst` from index `start` on. */
  method UnescapeInto(p: bytes, dst: array<byte>, start: nat) returns (good: bool, at: nat)
    requires start <= dst.Length
    modifies dst
    ensures start <= at <= dst.Length
    ensures dst[..start] == old(dst[..start])
    ensures forall k :: at <= k < dst.Length ==> dst[k] == old(dst[k])
    ensures good <==> Unescape(p).Some? && start + |Unescape(p).value| <= dst.Length
    ensures good ==> dst[..at] == old(dst[..start]) + Unescape(p).value
  {
    hide FirstPiece, Unescape;
    at := start;
    var i := 0;
    ghost var done: bytes := [];
    assert p[0..] == p;
    PrependEmpty(Unescape(p));
    while i < |p|
      invariant i <= |p| && start <= at <= dst.Length && at == start + |done|
      invariant Unescape(p) == Prepend(done, Unescape(p[i..]))
      invariant dst[..at] == old(dst[..start]) + done
      invariant forall k :: at <= k < dst.Length ==> dst[k] == old(dst[k])
    {
      var piece := Some(Piece(1, [p[i]]));
      if p[i] == BACKSLASH {
        piece := ReadEscape(p, i);
      } else {
        PlainPiece(p[i..]);
      }
      if piece == None {
        UnescapeStep(p[i..]);
        return false, at;
      }
      var out, size := piece.value.out, piece.value.size;
      UnescapeStep(p[i..]);
      DropDrop(p, i, size);
      PrependPrepend(done, out, Unescape(p[i + size..]));
      var fits, next := CopyBytes(dst, at, out);
      if !fits {
        return false, at;
      }
      at, i, done := next, i + size, done + out;
    }
    UnescapeStep(p[i..]);
    assert done + [] == done && dst[..start] == dst[..at][..start];
    return true, at;
  }

  lemma {:induction false} UnescapeStep(s: bytes)
    ensures Unescape(s) ==
            if s == [] then Some([])
            else if FirstPiece(s) == None then None
            else Prepend(FirstPiece(s).value.out, Unescape(s[FirstPiece(s).value.size..]))
  {
  }

  lemma {:induction false} PrependEmpty(r: Option<bytes>)
    ensures Prepend([], r) == r
  {
    if r.Some? {
      assert [] + r.value == r.value;
    }
  }

  lemma {:induction false} PlainPiece(s: bytes)
    requires s != [] && s[0] != BACKSLASH
    ensures FirstPiece(s) == Some(Piece(1, [s[0]]))
  {
  }

  /** The result of json_token_get_string on a token of the reader. */
  function StringResult(token: Token, capacity: nat): Result {
    if !IsText(token) then InvalidState
    else if Meaning(token).Some? && |Meaning(token).value| <= capacity then Ok
    else InsufficientSize
  }

  /** The result that inc/json.h documents for it: escapes that do not decode are told from want of room. */
  function DocumentedResult(token: Token, capacity: nat): Result {
    if !IsText(token) then InvalidState
    else if Meaning(token).None? then UnexpectedChar
    else if |Meaning(token).value| <= capacity then Ok
    else InsufficientSize
  }

  /**
   The result is the documented one exactly when surrogate escapes are paired; otherwise it is
   insufficient_size, however large the buffer.
   */
  lemma {:induction false} ResultIsDocumented(token: Token, capacity: nat)
    requires FromReader(token)
    ensures StringResult(token, capacity) == DocumentedResult(token, capacity) <==> SurrogatesPaired(token.text)
    ensures !SurrogatesPaired(token.text) ==> StringResult(token, capacity) == InsufficientSize
  {
    UnescapeDefined(token.text);
  }

  /** The body of a lone high surrogate escape. */
  const LONE_SURROGATE: bytes := [BACKSLASH, 0x75, 0x44, 0x38, DIGIT_0, DIGIT_0]

  lemma {:induction false} LoneSurrogateMisreported(capacity: nat)
    ensures var token := BodyToken(StringToken, LONE_SURROGATE);
            FromReader(token) && Meaning(token) == None
            && StringResult(token, capacity) == InsufficientSize
            && DocumentedResult(token, capacity) == UnexpectedChar
  {
    var s := LONE_SURROGATE;
    assert UnitLength(s) == 6 && s[6..] == [];
    assert Hex4(s[2..]) == Some(0xD800);
  }

  /**
   json_token_get_string: a token that is no string, too small a buffer, or the unescaped bytes. The
   byte behind them, which inc/json.h documents as a terminator, is left as it was.
   */
  method GetString(token: Token, dst: array<byte>) returns (r: Result, length: nat)
    modifies dst
    ensures !IsText(token) ==> r == InvalidState && unchanged(dst)
    ensures IsText(token) ==> r == Ok || r == InsufficientSize
    ensures FromReader(token) ==> r == StringResult(token, dst.Length)
    ensures FromReader(token) && r == Ok ==>
              length <= |token.text| && length <= dst.Length
              && Meaning(token) == Some(dst[..length])
              && forall k :: length <= k < dst.Length ==> dst[k] == old(dst[k])
  {
    length := 0;
    if token.kind != StringToken && token.kind != PropertyName {
      return InvalidState, 0;
    }
    if !token.escaped {
      if BACKSLASH !in token.text {
        UnescapePlain(token.text);
      }
      if dst.Length < |token.text| {
        return InsufficientSize, 0;
      }
      var _, _ := CopyBytes(dst, 0, token.text);
      assert [] + token.text == token.text;
      return Ok, |token.text|;
    }
    var good, at := UnescapeInto(token.text, dst, 0);
    if !good {
      return InsufficientSize, 0;
    }
    assert [] + Unescape(token.text).value == Unescape(token.text).value;
    return Ok, at;
  }

  // ---------------------------------------------------------------- chunked comparison

  /**
   A surrogate pair with six or more bytes of body behind it. Such a pair is cut in two by
   the chunking of json_token_is_text_equal, wherever it stands.
   */
  predicate HasEarlyPair(s: bytes)
    decreases |s|
  {
    s != [] && FirstPiece(s).Some?
    && ((FirstPiece(s).value.size == 12 && |s| >= 18) || HasEarlyPair(s[FirstPiece(s).value.size..]))
  }

  /** When json_token_is_text_equal answers true, for any token at all. */
  predicate TextEqual(token: Token, expected: Span) {
    IsText(token)
    && if token.escaped then Meaning(token) == Some(Data(expected)) && !HasEarlyPair(token.text)
       else Slice(token.text) == expected
  }

  /** `s[..safe]` is a whole number of pieces, none of them an early pair. */
  predicate Aligned(s: bytes, safe: nat) {
    safe <= |s| && Unescape(s[..safe]).Some? && HasEarlyPair(s) == HasEarlyPair(s[safe..])
  }

  /** `safe` is between the halves of a surrogate pair. */
  predicate InPair(s: bytes, safe: nat) {
    6 <= safe && safe + 6 <= |s| && Aligned(s, safe - 6)
    && FirstPiece(s[safe - 6..]).Some? && FirstPiece(s[safe - 6..]).value.size == 12
  }

  lemma {:induction false} UnescapeRest(s: bytes, safe: nat)
    requires Aligned(s, safe) && Unescape(s).Some?
    ensures Unescape(s[safe..]).Some?
    ensures Unescape(s).value == Unescape(s[..safe]).value + Unescape(s[safe..]).value
  {
    hide Unescape, HasEarlyPair;
    UnescapeConcat(s[..safe], s[safe..]);
    assert s[..safe] + s[safe..] == s;
  }

  /** The next whole piece keeps the alignment, unless it is an early pair. */
  lemma {:induction false} NextAligned(s: bytes, safe: nat)
    requires Aligned(s, safe) && safe < |s| && FirstPiece(s[safe..]).Some?
    requires FirstPiece(s[safe..]).value.size == 12 ==> |s| - safe < 18
    ensures Aligned(s, safe + FirstPiece(s[safe..]).value.size)
  {
    hide FirstPiece;
    var n := FirstPiece(s[safe..]).value.size;
    DropDrop(s, safe, n);
    TakePiece(s[safe..]);
    UnescapeConcat(s[..safe], s[safe..][..n]);
    assert s[..safe] + s[safe..][..n] == s[..safe + n];
  }

  lemma {:induction false} TakePiece(s: bytes)
    requires s != [] && FirstPiece(s).Some?
    ensures Unescape(s[..FirstPiece(s).value.size]).Some?
  {
    var n := FirstPiece(s).value.size;
    var t := s[..n];
    if s[0] == BACKSLASH && s[1] == 0x75 {
      assert Hex4(t[2..]) == Hex4(s[2..]);
      if n == 12 {
        assert Hex4(t[8..]) == Hex4(s[8..]);
      }
    }
    assert FirstPiece(t) == FirstPiece(s) && t[n..] == [];
  }

  lemma {:induction false} HighHalf(s: bytes)
    requires s != [] && FirstPiece(s).Some? && FirstPiece(s).value.size == 12
    ensures Unescape(s[..6]) == None
  {
    assert s[..6][2..] == s[2..][..4];
    assert Hex4(s[..6][2..]) == Hex4(s[2..]);
    assert FirstPiece(s[..6]) == None;
  }

  /** Half a pair cannot be unescaped, whatever precedes it. */
  lemma {:induction false} HalfPair(s: bytes, safe: nat)
    requires InPair(s, safe)
    ensures Unescape(s[..safe]) == None
  {
    hide FirstPiece, Unescape, HasEarlyPair;
    HighHalf(s[safe - 6..]);
    UnescapeConcat(s[..safe - 6], s[safe - 6..][..6]);
    assert s[..safe - 6] + s[safe - 6..][..6] == s[..safe];
  }

  lemma {:induction false} PairHasTwo(s: bytes)
    requires s != [] && FirstPiece(s).Some? && FirstPiece(s).value.size == 12
    ensures |s| >= 12 && s[6] == BACKSLASH && s[7] == 0x75
  {
  }

  /** The second half of a pair completes the piece, unless bytes enough follow to cut it here. */
  lemma {:induction false} SecondHalf(s: bytes, safe: nat)
    requires InPair(s, safe)
    ensures s[safe] == BACKSLASH && s[safe + 1] == 0x75
    ensures safe + 12 <= |s| ==> HasEarlyPair(s)
    ensures safe + 12 > |s| ==> Aligned(s, safe + 6)
  {
    hide FirstPiece, Unescape;
    var t := s[safe - 6..];
    PairHasTwo(t);
    assert t[6] == s[safe] && t[7] == s[safe + 1];
    if safe + 12 > |s| {
      NextAligned(s, safe - 6);
    }
  }

  /** A whole piece in front of the boundary, by its first bytes. */
  lemma {:induction false} DecodesFirst(s: bytes)
    requires s != [] && Unescape(s).Some?
    ensures FirstPiece(s).Some?
  {
    hide FirstPiece;
  }

  lemma {:induction false} PieceAt(s: bytes, safe: nat)
    requires Aligned(s, safe) && safe < |s| && Unescape(s).Some?
    ensures FirstPiece(s[safe..]).Some?
    ensures s[safe] != BACKSLASH ==> Aligned(s, safe + 1)
    ensures s[safe] == BACKSLASH ==> safe + 2 <= |s| && (s[safe + 1] != 0x75 ==> Aligned(s, safe + 2))
    ensures s[safe] == BACKSLASH && s[safe + 1] == 0x75 ==>
              safe + 6 <= |s| && (Aligned(s, safe + 6) || (InPair(s, safe + 6) && safe + 12 <= |s|))
  {
    hide Aligned, HasEarlyPair, Unescape;
    UnescapeRest(s, safe);
    DecodesFirst(s[safe..]);
    if FirstPiece(s[safe..]).value.size != 12 {
      NextAligned(s, safe);
    }
  }

  /** The boundary search of json_token_is_text_equal in the chunk `s[..chunk]`. */
  method FindBoundary(s: bytes, chunk: nat) returns (safe: nat)
    requires s != [] && chunk == if |s| > 16 then 16 else |s|
    ensures 0 < safe <= chunk
    ensures Unescape(s).Some? ==> Aligned(s, safe) || (InPair(s, safe) && HasEarlyPair(s))
  {
    hide Aligned, InPair, HasEarlyPair, Unescape, FirstPiece;
    safe := 0;
    ghost var inPair := false;
    ghost var known := Unescape(s).Some?;
    assert Aligned(s, 0) by { AlignedAtStart(s); }
    while safe < chunk
      invariant safe <= chunk
      invariant known && !inPair ==> Aligned(s, safe)
      invariant known && inPair ==> InPair(s, safe) && safe >= 6 && safe + 6 <= chunk
    {
      if known {
        if inPair {
          assert safe + 6 <= |s|;
          SecondHalf(s, safe);
        } else {
          PieceAt(s, safe);
        }
      }
      var c := s[safe];
      if c == BACKSLASH {
        if safe + 1 >= chunk {
          break;
        }
        if s[safe + 1] == 0x75 {
          if safe + 6 > chunk {
            break;
          }
          if chunk - safe < 12 && safe + 12 <= |s| {
            break;
          }
          inPair := !inPair && !Aligned(s, safe + 6);
          safe := safe + 6;
        } else {
          safe := safe + 2;
        }
      } else {
        safe := safe + 1;
      }
    }
    if safe == 0 {
      safe := chunk;
    }
  }

  lemma {:induction false} AlignedAtStart(s: bytes)
    ensures Aligned(s, 0)
  {
    assert s[0..] == s && s[..0] == [];
  }

  /** What the comparison of the rest of the token with the rest of the text has to answer. */
  predicate RestEqual(s: bytes, e: bytes) {
    Unescape(s) == Some(e) && !HasEarlyPair(s)
  }

  /** A chunk that cannot be unescaped or does not match decides the comparison; a matching one shortens it. */
  lemma {:induction false} ChunkDecides(s: bytes, safe: nat, e: bytes)
    requires 0 < safe <= |s|
    requires Unescape(s).Some? ==> Aligned(s, safe) || (InPair(s, safe) && HasEarlyPair(s))
    ensures Unescape(s[..safe]) == None ==> !RestEqual(s, e)
    ensures Unescape(s[..safe]).Some? ==>
              var x := Unescape(s[..safe]).value;
              RestEqual(s, e) <==> x <= e && RestEqual(s[safe..], e[|x|..])
  {
    assert s[..safe] + s[safe..] == s;
    if Unescape(s[..safe]).Some? {
      var x := Unescape(s[..safe]).value;
      UnescapeConcat(s[..safe], s[safe..]);
      if InPair(s, safe) {
        HalfPair(s, safe);
      }
      if x <= e {
        assert e == x + e[|x|..];
        assert forall r: bytes :: x + r == e ==> r == e[|x|..] by {
          forall r: bytes | x + r == e ensures r == e[|x|..] {
            assert (x + r)[|x|..] == r;
          }
        }
      }
    }
  }

  /** One chunk: unescape it to the scratch buffer and compare with the head of the rest of the text. */
  method CompareChunk(p: bytes, scratch: array<byte>, remaining: bytes) returns (matches: bool, produced: nat)
    requires |p| <= 16 <= scratch.Length
    modifies scratch
    ensures matches <==> Unescape(p).Some? && Unescape(p).value <= remaining
    ensures matches ==> produced == |Unescape(p).value|
  {
    hide Unescape;
    ShortResult(p);
    var good;
    good, produced := UnescapeInto(p, scratch, 0);
    if !good {
      return false, produced;
    }
    assert scratch[..produced] == Unescape(p).value;
    matches := produced <= |remaining| && scratch[..produced] == remaining[..produced];
  }

  lemma {:induction false} RestEqualEnd(e: bytes)
    ensures RestEqual([], e) <==> e == []
  {
  }

  /** The loop over an escaped token: chunks of at most 16 bytes, so the 64-byte buffer never fills. */
  method EscapedEqual(src: bytes, text: bytes) returns (equal: bool)
    ensures equal == RestEqual(src, text)
  {
    hide RestEqual, Unescape, HasEarlyPair, Aligned, InPair;
    var scratch := new byte[64];
    var remaining := text;
    var i := 0;
    assert src[0..] == src;
    while i < |src|
      invariant i <= |src|
      invariant RestEqual(src, text) == RestEqual(src[i..], remaining)
    {
      var s := src[i..];
      var chunk := |s|;
      if chunk > 16 {
        chunk := 16;
      }
      var safe := FindBoundary(s, chunk);
      ChunkDecides(s, safe, remaining);
      var matches, produced := CompareChunk(s[..safe], scratch, remaining);
      if !matches {
        return false;
      }
      DropDrop(src, i, safe);
      remaining := remaining[produced..];
      i := i + safe;
    }
    RestEqualEnd(remaining);
    assert src[i..] == [];
    return |remaining| == 0;
  }

  /** json_token_is_text_equal */
  method IsTextEqual(token: Token, expected: Span) returns (equal: bool)
    ensures equal == TextEqual(token, expected)
  {
    if token.kind != StringToken && token.kind != PropertyName {
      return false;
    }
    if !token.escaped {
      return Slice(token.text) == expected;
    }
    equal := EscapedEqual(token.text, Data(expected));
  }

  lemma {:induction false} ShortResult(s: bytes)
    ensures Unescape(s).Some? ==> |Unescape(s).value| <= |s|
  {
  }

  // ---------------------------------------------------------------- what equality means

  /** A token that is neither a string nor a name equals no text. */
  lemma {:induction false} OtherTokensDiffer(token: Token, expected: Span)
    ensures TextEqual(token, expected) ==> token.kind in {StringToken, PropertyName}
  {
  }

  /** Answering true is always right: the unescaped token is the expected text. */
  lemma {:induction false} TextEqualSound(token: Token, expected: Span)
    requires FromReader(token) && TextEqual(token, expected)
    ensures Meaning(token) == Some(Data(expected))
  {
    if !token.escaped {
      UnescapePlain(token.text);
    }
  }

  /**
   Exactly when the answer agrees with unescape-then-compare: an equal token is reported equal
   unless it holds an early surrogate pair, or is empty and compared with memory of length zero.
   */
  lemma {:induction false} TextEqualExact(token: Token, expected: Span)
    requires FromReader(token) && Meaning(token) == Some(Data(expected))
    ensures TextEqual(token, expected) <==>
              !HasEarlyPair(token.text) && !(token.text == [] && expected.Memory?)
  {
    if !token.escaped {
      UnescapePlain(token.text);
      PlainHasNoPair(token.text);
    }
  }

  predicate SpellsPair(s: bytes, cp: nat) {
    cp >= 0x1_0000 && Spells(s, cp)
  }

  ghost predicate IsPair(s: bytes) {
    exists cp :: SpellsPair(s, cp)
  }

  /** An early pair is a spelling of a value above FFFF between decodable text and at least six more bytes. */
  ghost predicate EarlyPairAt(s: bytes, k: nat) {
    k + 18 <= |s| && Unescape(s[..k]).Some? && IsPair(s[k..k + 12])
  }

  lemma {:induction false} EarlyPairExact(s: bytes)
    requires Unescape(s).Some?
    ensures HasEarlyPair(s) <==> exists k :: EarlyPairAt(s, k)
  {
    if HasEarlyPair(s) {
      var k := FindEarlyPair(s);
    }
    if k :| EarlyPairAt(s, k) {
      EarlyPairSeen(s, k);
    }
  }

  lemma {:induction false} FindEarlyPair(s: bytes) returns (k: nat)
    requires HasEarlyPair(s) && Unescape(s).Some?
    ensures EarlyPairAt(s, k)
    decreases |s|
  {
    hide FirstPiece, Spells;
    var n := FirstPiece(s).value.size;
    if n == 12 && |s| >= 18 {
      k := 0;
      assert s[..0] == [];
      var cp := PairSpells(s);
      assert SpellsPair(s[0..12], cp);
    } else {
      var j := FindEarlyPair(s[n..]);
      k := n + j;
      TakePiece(s);
      UnescapeConcat(s[..n], s[n..][..j]);
      assert s[..n] + s[n..][..j] == s[..k];
      assert s[n..][j..j + 12] == s[k..k + 12];
    }
  }

  lemma {:induction false} EarlyPairSeen(s: bytes, k: nat)
    requires EarlyPairAt(s, k) && Unescape(s).Some?
    ensures HasEarlyPair(s)
    decreases |s|
  {
    hide FirstPiece, Spells;
    if k == 0 {
      var cp :| SpellsPair(s[0..12], cp);
      SpelledPair(s[..12], cp);
      FirstPieceExtends(s[..12], s[12..]);
      assert s[..12] + s[12..] == s;
    } else {
      var n := FirstPiece(s[..k]).value.size;
      FirstPieceExtends(s[..k], s[k..]);
      assert s[..k] + s[k..] == s;
      assert s[..k][n..] == s[n..][..k - n] && s[n..][k - n..k - n + 12] == s[k..k + 12];
      EarlyPairSeen(s[n..], k - n);
    }
  }

  lemma {:induction false} PlainHasNoPair(s: bytes)
    requires BACKSLASH !in s
    ensures !HasEarlyPair(s)
    decreases |s|
  {
    if s != [] {
      PlainHasNoPair(s[1..]);
    }
  }

  /** No unit of the body is an escaped surrogate. */
  predicate NoSurrogates(s: bytes)
    decreases |s|
  {
    UnitLength(s) == 0
    || ((EscapedUnit(s).Some? ==> !IsHighSurrogate(EscapedUnit(s).value) && !IsLowSurrogate(EscapedUnit(s).value))
        && NoSurrogates(s[UnitLength(s)..]))
  }

  lemma {:induction false} NoSurrogatesNoPair(s: bytes)
    requires IsBody(s) && NoSurrogates(s)
    ensures !HasEarlyPair(s)
    decreases |s|
  {
    if s != [] {
      NoSurrogatesNoPair(s[UnitLength(s)..]);
    }
  }

  /** Without surrogate escapes and with a nonempty body the comparison is unescape-then-compare. */
  lemma {:induction false} TextEqualIsEquality(token: Token, expected: Span)
    requires FromReader(token) && token.text != [] && NoSurrogates(token.text)
    ensures TextEqual(token, expected) <==> Meaning(token) == Some(Data(expected))
  {
    NoSurrogatesNoPair(token.text);
    if TextEqual(token, expected) {
      TextEqualSound(token, expected);
    }
    if Meaning(token) == Some(Data(expected)) {
      TextEqualExact(token, expected);
    }
  }

  lemma {:induction false} BodyConcat(a: bytes, b: bytes)
    requires IsBody(a) && IsBody(b)
    ensures IsBody(a + b)
    decreases |a|
  {
    if a == [] {
      assert a + b == b;
    } else {
      UnitLengthExtends(a, b);
      BodyConcat(a[UnitLength(a)..], b);
    }
  }

  /** However a scalar value above FFFF is escaped, six or more bytes behind it make equal text compare different. */
  lemma {:induction false} EarlyPairReportedDifferent(pair: bytes, cp: nat, after: bytes)
    requires cp >= 0x1_0000 && Spells(pair, cp) && |after| >= 6 && IsBody(after) && Unescape(after).Some?
    ensures var token := BodyToken(StringToken, pair + after);
            var text := EncodeUtf8(cp) + Unescape(after).value;
            FromReader(token) && Meaning(token) == Some(text) && !TextEqual(token, Memory(text))
  {
    SpellingUnescapes(pair, cp);
    UnescapeConcat(pair, after);
    FirstPieceExtends(pair, after);
    SpelledPair(pair, cp);
    BodyConcat(pair, after);
    assert (pair + after)[0] == BACKSLASH;
  }

  lemma {:induction false} SpelledPair(pair: bytes, cp: nat)
    requires cp >= 0x1_0000 && Spells(pair, cp)
    ensures IsBody(pair) && pair[0] == BACKSLASH && FirstPiece(pair).Some? && FirstPiece(pair).value.size == 12
  {
    hide Spells;
    SpellingParts(pair, cp);
    assert Hex4(pair[..6][2..]) == Hex4(pair[2..]);
    assert pair[6..][2..] == pair[8..] && pair[6..][6..] == [];
    assert UnitLength(pair[6..]) == 6 && IsBody(pair[6..]);
  }

  const LETTERS: bytes := [0x61, 0x62, 0x63, 0x64, 0x65, 0x66]

  /** A grinning face (U+1F600) in UTF-8. */
  const FACE: bytes := [0xF0, 0x9F, 0x98, 0x80]

  /** The comparison is not complete: the face, escaped, and six letters, which a reader can deliver. */
  lemma {:induction false} TextEqualIncomplete()
    ensures var token := BodyToken(StringToken, ScalarEscape(0x1F600) + LETTERS);
            FromReader(token) && Meaning(token) == Some(FACE + LETTERS) && !TextEqual(token, Memory(FACE + LETTERS))
  {
    hide Spells, ScalarEscape, EncodeUtf8, Unescape, IsBody, TextEqual, FromReader;
    FaceAndLetters();
    EveryScalarIsSpelled(0x1F600);
    EarlyPairReportedDifferent(ScalarEscape(0x1F600), 0x1F600, LETTERS);
  }

  lemma {:induction false} FaceAndLetters()
    ensures EncodeUtf8(0x1F600) == FACE
    ensures |LETTERS| == 6 && IsBody(LETTERS) && Unescape(LETTERS) == Some(LETTERS)
  {
    hide Unescape, IsBody;
    UnescapePlain(LETTERS);
    LettersAreBody(LETTERS);
  }

  lemma {:induction false} LettersAreBody(s: bytes)
    requires forall i :: 0 <= i < |s| ==> 0x61 <= s[i] <= 0x7A
    ensures IsBody(s)
    decreases |s|
  {
    if s != [] {
      LettersAreBody(s[1..]);
    }
  }
}
