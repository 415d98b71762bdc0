/** Bytes, optional values, result codes and ASCII constants shared by the models. */
module Common {

  type byte = b: int | 0 <= b < 256
  type bytes = seq<byte>

  const TWO_TO_THE_32 := 0x1_0000_0000
  const TWO_TO_THE_64 := 0x1_0000_0000_0000_0000

  datatype Option<+T> = None | Some(value: T)

  /** The result codes of inc/niceties.h that the modelled functions return. */
  datatype Result =
    | Ok
    | InvalidArgument
    | InsufficientSize
    | NotFound
    | UnexpectedChar
    | UnexpectedEnd
    | NestingOverflow
    | InvalidState
    | ReaderDone

  function Min(a: nat, b: nat): nat {
    if a < b then a else b
  }

  function Max(a: nat, b: nat): nat {
    if a < b then b else a
  }

  const BACKSPACE: byte := 0x08
  const TAB: byte := 0x09
  const LINE_FEED: byte := 0x0A
  const FORM_FEED: byte := 0x0C
  const CARRIAGE_RETURN: byte := 0x0D
  const SPACE: byte := 0x20
  const QUOTE: byte := 0x22
  const PLUS: byte := 0x2B
  const COMMA: byte := 0x2C
  const MINUS: byte := 0x2D
  const DOT: byte := 0x2E
  const SLASH: byte := 0x2F
  const DIGIT_0: byte := 0x30
  const DIGIT_9: byte := 0x39
  const COLON: byte := 0x3A
  const LEFT_BRACKET: byte := 0x5B
  const BACKSLASH: byte := 0x5C
  const RIGHT_BRACKET: byte := 0x5D
  const LEFT_BRACE: byte := 0x7B
  const RIGHT_BRACE: byte := 0x7D

  /** The bytes of an ASCII text. */
  function Ascii(s: string): (b: bytes)
    requires forall i :: 0 <= i < |s| ==> s[i] as int < 128
    ensures |b| == |s|
  {
    seq(|s|, i requires 0 <= i < |s| => s[i] as int)
  }

  /** The constants are the characters they are named after. */
  lemma {:induction false} Signs()
    ensures Ascii("[") == [LEFT_BRACKET] && Ascii("]") == [RIGHT_BRACKET]
    ensures Ascii("{") == [LEFT_BRACE] && Ascii("}") == [RIGHT_BRACE]
    ensures Ascii(",") == [COMMA] && Ascii(":") == [COLON] && Ascii("\"") == [QUOTE]
    ensures Ascii("\\") == [BACKSLASH] && Ascii("/") == [SLASH]
    ensures Ascii("+") == [PLUS] && Ascii("-") == [MINUS] && Ascii(".") == [DOT]
    ensures Ascii("0") == [DIGIT_0] && Ascii("9") == [DIGIT_9]
    ensures Ascii(" ") == [SPACE] && Ascii("\t") == [TAB] && Ascii("\r\n") == [CARRIAGE_RETURN, LINE_FEED]
    ensures BACKSPACE == 8 && FORM_FEED == 12
  {
  }

  predicate IsDigit(c: byte) {
    DIGIT_0 <= c <= DIGIT_9
  }

  /** Every byte of `s` is an ASCII digit. */
  predicate AllDigits(s: bytes) {
    forall i :: 0 <= i < |s| ==> IsDigit(s[i])
  }

  // ---------------------------------------------------------------- sequences

  lemma {:induction false} Assoc<T>(a: seq<T>, b: seq<T>, c: seq<T>)
    ensures a + b + c == a + (b + c)
  {
  }

  lemma {:induction false} Regroup3<T>(a: seq<T>, b: seq<T>, c: seq<T>, d: seq<T>)
    ensures a + (b + c) + d == a + (b + (c + d))
  {
    Assoc(b, c, d);
    Assoc(a, b + c, d);
  }

  lemma {:induction false} Regroup4<T>(a: seq<T>, b: seq<T>, c: seq<T>, d: seq<T>, e: seq<T>, f: seq<T>)
    ensures a + (b + (c + (d + e))) + f == a + (b + (c + (d + (e + f))))
  {
    Regroup3(c, d, e, f);
    Assoc(b, c + (d + e), f);
    Assoc(a, b + (c + (d + e)), f);
  }

  lemma {:induction false} EmptyLeft<T>(s: seq<T>)
    ensures [] + s == s
  {
  }

  lemma {:induction false} EmptyRight<T>(s: seq<T>)
    ensures s + [] == s
  {
  }

  lemma {:induction false} DropDrop<T>(s: seq<T>, a: nat, b: nat)
    requires a + b <= |s|
    ensures s[a..][b..] == s[a + b..]
  {
  }
}
