/**
 json_writer_t of src/json_writer.c as an object over a caller's buffer. Every append call is
 tied to the state machine of JsonWriting, so its results hold of the bytes in the buffer.
 */
module JsonWriters {
  import opened Common
  import opened JsonGrammar
  import opened JsonAutomaton
  import opened JsonStrings
  import opened JsonTokens
  import opened Decimal
  import opened BitStacks
  import opened JsonWriting
  import opened JsonReaders

  // ---------------------------------------------------------------- escaping

  /** The index that stands for "no byte needs escaping". */
  const NO_ESCAPE := -1

  /** No byte of `s` needs an escape. */
  predicate IsPlain(s: bytes) {
    forall i :: 0 <= i < |s| ==> !NeedsEscape(s[i])
  }

  lemma {:induction false} EscapePlain(s: bytes)
    requires IsPlain(s)
    ensures Escape(s) == s
    decreases |s|
  {
    if s != [] {
      EscapePlain(s[1..]);
      assert EscapeByte(s[0]) == [s[0]] && [s[0]] + s[1..] == s;
    }
  }

  lemma {:induction false} EscapeNext(s: bytes, i: nat)
    requires i < |s|
    ensures Escape(s[..i + 1]) == Escape(s[..i]) + EscapeByte(s[i])
  {
    assert s[..i + 1] == s[..i] + [s[i]];
    EscapeConcat(s[..i], [s[i]]);
    assert Escape([s[i]]) == EscapeByte(s[i]) by {
      assert [s[i]][1..] == [];
      EmptyRight(EscapeByte(s[i]));
    }
  }

  lemma {:induction false} EscapeByteSize(c: byte)
    ensures |EscapeByte(c)| ==
            if c == BACKSLASH || c == QUOTE || c == BACKSPACE || c == FORM_FEED || c == LINE_FEED
               || c == CARRIAGE_RETURN || c == TAB then 2
            else if c < SPACE then 6 else 1
  {
  }

  /** json_escaped_length: the exact length of the escaped form, and the first byte that needs escaping. */
  method EscapedLength(value: bytes) returns (length: nat, first: int)
    ensures length == |Escape(value)|
    ensures first == NO_ESCAPE ==> IsPlain(value)
    ensures first != NO_ESCAPE ==> 0 <= first < |value| && IsPlain(value[..first]) && NeedsEscape(value[first])
  {
    hide EscapeByte, Escape;
    length, first := 0, NO_ESCAPE;
    assert value[..0] == [];
    EscapePlain([]);
    for i := 0 to |value|
      invariant length == |Escape(value[..i])|
      invariant first == NO_ESCAPE ==> IsPlain(value[..i]) && length == i
      invariant first != NO_ESCAPE ==> 0 <= first < i && IsPlain(value[..first]) && NeedsEscape(value[first])
    {
      EscapeNext(value, i);
      EscapeByteSize(value[i]);
      var c := value[i];
      if c == BACKSLASH || c == QUOTE || c == BACKSPACE || c == FORM_FEED || c == LINE_FEED
         || c == CARRIAGE_RETURN || c == TAB
      {
        length := length + 2;
      } else if c < SPACE {
        length := length + 6;
      } else {
        length := length + 1;
      }
      if length != i + 1 && first == NO_ESCAPE {
        first := i;
      }
    }
    assert value[..|value|] == value;
  }

  /** json_escape_one_byte: the escaped form of one byte, or nothing when it does not fit. */
  method EscapeOneByte(dst: array<byte>, at: nat, c: byte) returns (size: nat)
    requires at <= dst.Length
    modifies dst
    ensures size == if at + |EscapeByte(c)| <= dst.Length then |EscapeByte(c)| else 0
    ensures dst[..at + size] == old(dst[..at]) + (if size > 0 then EscapeByte(c) else [])
    ensures forall k :: at + size <= k < dst.Length ==> dst[k] == old(dst[k])
  {
    var escaped: byte := 0;
    if c == BACKSLASH || c == QUOTE {
      escaped := c;
    } else if c == BACKSPACE {
      escaped := 0x62;
    } else if c == FORM_FEED {
      escaped := 0x66;
    } else if c == LINE_FEED {
      escaped := 0x6E;
    } else if c == CARRIAGE_RETURN {
      escaped := 0x72;
    } else if c == TAB {
      escaped := 0x74;
    } else {
      var buf: bytes := [c];
      if c < SPACE {
        buf := [BACKSLASH, 0x75, DIGIT_0, DIGIT_0, UpperHex(c / 16), UpperHex(c % 16)];
      }
      var fits, _ := CopyBytes(dst, at, buf);
      return if fits then |buf| else 0;
    }
    var fits, _ := CopyBytes(dst, at, [BACKSLASH, escaped]);
    return if fits then 2 else 0;
  }

  class JsonWriter {
    const destination: array<byte>
    var totalBytesWritten: nat
    var bytesWritten: nat
    var needComma: bool
    var tokenKind: Kind
    const bits: BitStack

    ghost predicate Valid()
      reads this, bits
    {
      bits.Valid() && bytesWritten <= destination.Length < TWO_TO_THE_32 && totalBytesWritten == bytesWritten
    }

    ghost function Abstract(): Writer
      requires bytesWritten <= destination.Length
      reads this, bits, destination
    {
      Writer(tokenKind, needComma, bits.Contents(), destination[..bytesWritten])
    }

    /** The call had this outcome. */
    ghost predicate Had(o: Outcome, r: Result)
      requires bytesWritten <= destination.Length
      reads this, bits, destination
    {
      r == o.result && Abstract() == o.writer
    }

    constructor (buffer: array<byte>)
      requires buffer.Length < TWO_TO_THE_32
      ensures Valid() && fresh(bits) && destination == buffer && Abstract() == FRESH
    {
      destination := buffer;
      totalBytesWritten, bytesWritten, needComma, tokenKind := 0, 0, false, NoToken;
      bits := new BitStack();
    }

    method Advance(size: nat, comma: bool, kind: Kind)
      modifies this
      ensures bytesWritten == old(bytesWritten) + size && totalBytesWritten == old(totalBytesWritten) + size
      ensures needComma == comma && tokenKind == kind
    {
      bytesWritten := bytesWritten + size;
      totalBytesWritten := totalBytesWritten + size;
      needComma := comma;
      tokenKind := kind;
    }

    /** Writes bytes for which room was found before. */
    method Store(at: nat, buf: bytes) returns (next: nat)
      requires at + |buf| <= destination.Length
      modifies destination
      ensures next == at + |buf| && destination[..next] == old(destination[..at]) + buf
    {
      var fits;
      fits, next := CopyBytes(destination, at, buf);
    }

    /** The due comma. */
    method StoreComma() returns (next: nat)
      requires Valid() && bytesWritten + |Comma(Abstract())| <= destination.Length
      modifies destination
      ensures next == bytesWritten + |Comma(old(Abstract()))|
      ensures destination[..next] == old(destination[..bytesWritten]) + Comma(old(Abstract()))
    {
      next := bytesWritten;
      if needComma {
        next := Store(next, [COMMA]);
      } else {
        EmptyRight(destination[..next]);
      }
    }

    function CanAppend(): (b: bool)
      requires Valid()
      reads this, bits, destination
      ensures b == CanAppendValue(Abstract())
    {
      if bits.Peek() == InObject && bits.currentDepth > 0 then tokenKind == PropertyName
      else !(bits.currentDepth == 0 && tokenKind != NoToken)
    }

    function CanName(): (b: bool)
      requires Valid()
      reads this, bits, destination
      ensures b == CanAppendName(Abstract())
    {
      if bits.currentDepth == 0 || bits.Peek() != InObject then false else tokenKind != PropertyName
    }

    function CanEnd(closing: byte): (b: bool)
      requires Valid() && (closing == RIGHT_BRACKET || closing == RIGHT_BRACE)
      reads this, bits, destination
      ensures b == CanAppendEnd(Abstract(), if closing == RIGHT_BRACKET then InArray else InObject)
    {
      if bits.currentDepth == 0 || tokenKind == PropertyName then false
      else bits.Peek() == if closing == RIGHT_BRACKET then InArray else InObject
    }

    /** The part of writer_write_quoted_string between the quotes. */
    method StoreEscaped(at: nat, value: bytes, first: int) returns (next: nat)
      requires at + |Escape(value)| <= destination.Length
      requires first == NO_ESCAPE ==> IsPlain(value)
      requires first != NO_ESCAPE ==> 0 <= first < |value| && IsPlain(value[..first])
      modifies destination
      ensures next == at + |Escape(value)| && destination[..next] == old(destination[..at]) + Escape(value)
    {
      hide Escape, IsPlain, EscapeByte;
      if first == NO_ESCAPE {
        EscapePlain(value);
        next := Store(at, value);
        return;
      }
      EscapePlain(value[..first]);
      EscapePrefix(value, first);
      next := Store(at, value[..first]);
      for i := first to |value|
        invariant next == at + |Escape(value[..i])| <= destination.Length
        invariant destination[..next] == old(destination[..at]) + Escape(value[..i])
      {
        EscapeNext(value, i);
        EscapePrefix(value, i + 1);
        var size := EscapeOneByte(destination, next, value[i]);
        Assoc(old(destination[..at]), Escape(value[..i]), EscapeByte(value[i]));
        next := next + size;
      }
      assert value[..|value|] == value;
    }

    static lemma {:induction false} EscapePrefix(value: bytes, i: nat)
      requires i <= |value|
      ensures |Escape(value[..i])| <= |Escape(value)|
    {
      EscapeConcat(value[..i], value[i..]);
      assert value[..i] + value[i..] == value;
    }

    static lemma {:induction false} JoinPieces(doc: bytes, comma: bytes, e: bytes)
      ensures doc + comma + [QUOTE] + e + [QUOTE] == doc + (comma + Quoted(e))
      ensures doc + comma + [QUOTE] + e + [QUOTE] + [COLON] == doc + (comma + NameText(e, []))
    {
      EmptyLeft([COLON]);
      Assoc(doc + comma, [QUOTE], e);
      Assoc(doc + comma, [QUOTE] + e, [QUOTE]);
      Assoc([QUOTE], e, [QUOTE]);
      Assoc(doc, comma, Quoted(e));
      Assoc(doc + comma, Quoted(e), [COLON]);
      Assoc(doc, comma, Quoted(e) + [COLON]);
    }

    static function QuotedText(value: bytes, isPropertyName: bool): bytes {
      if isPropertyName then NameText(Escape(value), []) else Quoted(Escape(value))
    }

    /** The copies of writer_write_quoted_string, for which room was found. */
    method StoreQuoted(value: bytes, first: int, isPropertyName: bool) returns (at: nat)
      requires Valid()
      requires bytesWritten + |Comma(Abstract())| + |QuotedText(value, isPropertyName)| <= destination.Length
      requires first == NO_ESCAPE ==> IsPlain(value)
      requires first != NO_ESCAPE ==> 0 <= first < |value| && IsPlain(value[..first])
      modifies destination
      ensures at == bytesWritten + |Comma(old(Abstract()))| + |QuotedText(value, isPropertyName)|
      ensures destination[..at]
           == old(destination[..bytesWritten]) + (Comma(old(Abstract())) + QuotedText(value, isPropertyName))
    {
      hide Escape, IsPlain, Unpack, Pow2;
      JoinPieces(destination[..bytesWritten], Comma(Abstract()), Escape(value));
      at := StoreComma();
      at := Store(at, [QUOTE]);
      at := StoreEscaped(at, value, first);
      at := Store(at, [QUOTE]);
      if isPropertyName {
        at := Store(at, [COLON]);
      }
    }

    /** writer_write_quoted_string */
    method WriteQuotedString(value: bytes, isPropertyName: bool) returns (r: Result)
      requires Valid()
      modifies this, destination
      ensures Valid()
      ensures var w := old(Abstract());
              var text := QuotedText(value, isPropertyName);
              Had(if |value| > MAX_UNESCAPED_STRING_SIZE then Outcome(InvalidArgument, w)
                  else Put(w, destination.Length, Comma(w), |text|, text,
                           if isPropertyName then PropertyName else StringToken, !isPropertyName, w.stack), r)
    {
      hide Escape, Unpack, Pow2, IsPlain;
      if |value| > MAX_UNESCAPED_STRING_SIZE {
        return InvalidArgument;
      }
      var length, first := EscapedLength(value);
      var required := length + 2;
      if needComma {
        required := required + 1;
      }
      if isPropertyName {
        required := required + 1;
      }
      if destination.Length - bytesWritten < required {
        return InsufficientSize;
      }
      var at := StoreQuoted(value, first, isPropertyName);
      Advance(required, !isPropertyName, if isPropertyName then PropertyName else StringToken);
      return Ok;
    }

    /** json_writer_append_string */
    method AppendStringValue(value: bytes) returns (r: Result)
      requires Valid()
      modifies this, destination
      ensures Valid() && Had(Apply(old(Abstract()), destination.Length, AppendString(value)), r)
    {
      hide Escape;
      if !CanAppend() {
        return InvalidArgument;
      }
      r := WriteQuotedString(value, false);
    }

    /** json_writer_append_property_name */
    method AppendName(name: bytes) returns (r: Result)
      requires Valid()
      modifies this, destination
      ensures Valid() && Had(Apply(old(Abstract()), destination.Length, AppendPropertyName(name)), r)
    {
      hide Escape, NameText;
      if |name| == 0 || !CanName() {
        return InvalidArgument;
      }
      r := WriteQuotedString(name, true);
    }

    /** writer_append_literal */
    method AppendLiteral(scalar: Scalar) returns (r: Result)
      requires Valid() && (scalar.True? || scalar.False? || scalar.Null?)
      modifies this, destination
      ensures Valid()
      ensures Had(PutScalar(old(Abstract()), destination.Length, |ScalarText(scalar)|, scalar), r)
    {
      if !CanAppend() {
        return InvalidArgument;
      }
      var literal := ScalarText(scalar);
      var required := |literal|;
      if needComma {
        required := required + 1;
      }
      if destination.Length - bytesWritten < required {
        return InsufficientSize;
      }
      Assoc(destination[..bytesWritten], Comma(Abstract()), literal);
      var at := StoreComma();
      at := Store(at, literal);
      Advance(required, true, ScalarToken(scalar).kind);
      return Ok;
    }

    /** json_writer_append_bool */
    method AppendBoolean(flag: bool) returns (r: Result)
      requires Valid()
      modifies this, destination
      ensures Valid() && Had(Apply(old(Abstract()), destination.Length, AppendBool(flag)), r)
    {
      r := AppendLiteral(if flag then True else False);
    }

    /** json_writer_append_null */
    method AppendNullValue() returns (r: Result)
      requires Valid()
      modifies this, destination
      ensures Valid() && Had(Apply(old(Abstract()), destination.Length, AppendNull), r)
    {
      r := AppendLiteral(Null);
    }

    /** json_writer_append_int32 */
    method AppendInteger(value: int32) returns (r: Result)
      requires Valid()
      modifies this, destination
      ensures Valid() && Had(Apply(old(Abstract()), destination.Length, AppendInt32(value)), r)
    {
      hide IntText;
      if !CanAppend() {
        return InvalidArgument;
      }
      var required := MAX_SIZE_FOR_INT32;
      if needComma {
        required := required + 1;
      }
      if destination.Length - bytesWritten < required {
        return InsufficientSize;
      }
      IntTextShort(value);
      Assoc(destination[..bytesWritten], Comma(Abstract()), IntText(value));
      var at := StoreComma();
      var good, next := CopyInt32(destination, at, value);
      Advance(next - bytesWritten, true, NumberToken);
      return Ok;
    }

    /** writer_append_container_start */
    method AppendContainerStart(item: Container) returns (r: Result)
      requires Valid()
      modifies this, destination, bits
      ensures Valid()
      ensures Had(PutOpen(old(Abstract()), destination.Length,
                          if item == InArray then BEGIN_ARRAY else BEGIN_OBJECT, item), r)
    {
      hide Unpack, Pow2;
      if !CanAppend() {
        return InvalidArgument;
      }
      if bits.currentDepth >= MAX_DEPTH {
        return NestingOverflow;
      }
      var required := 1;
      if needComma {
        required := required + 1;
      }
      if destination.Length - bytesWritten < required {
        return InsufficientSize;
      }
      var bracket := if item == InArray then LEFT_BRACKET else LEFT_BRACE;
      Assoc(destination[..bytesWritten], Comma(Abstract()), [bracket]);
      var at := StoreComma();
      at := Store(at, [bracket]);
      Advance(required, false, if item == InArray then BeginArray else BeginObject);
      bits.Push(item);
      return Ok;
    }

    /** writer_append_container_end */
    method AppendContainerEnd(closing: byte) returns (r: Result)
      requires Valid() && (closing == RIGHT_BRACKET || closing == RIGHT_BRACE)
      modifies this, destination, bits
      ensures Valid()
      ensures Had(PutClose(old(Abstract()), destination.Length,
                           if closing == RIGHT_BRACKET then END_ARRAY else END_OBJECT,
                           if closing == RIGHT_BRACKET then InArray else InObject), r)
    {
      hide Unpack, Pow2;
      if !CanEnd(closing) {
        return InvalidArgument;
      }
      if destination.Length - bytesWritten < 1 {
        return InsufficientSize;
      }
      EmptyLeft([closing]);
      var at := Store(bytesWritten, [closing]);
      Advance(1, true, if closing == RIGHT_BRACKET then EndArray else EndObject);
      var _ := bits.Pop();
      return Ok;
    }

    method BeginObjectValue() returns (r: Result)
      requires Valid()
      modifies this, destination, bits
      ensures Valid() && Had(Apply(old(Abstract()), destination.Length, AppendBeginObject), r)
    {
      r := AppendContainerStart(InObject);
    }

    method BeginArrayValue() returns (r: Result)
      requires Valid()
      modifies this, destination, bits
      ensures Valid() && Had(Apply(old(Abstract()), destination.Length, AppendBeginArray), r)
    {
      r := AppendContainerStart(InArray);
    }

    method EndObjectValue() returns (r: Result)
      requires Valid()
      modifies this, destination, bits
      ensures Valid() && Had(Apply(old(Abstract()), destination.Length, AppendEndObject), r)
    {
      r := AppendContainerEnd(RIGHT_BRACE);
    }

    method EndArrayValue() returns (r: Result)
      requires Valid()
      modifies this, destination, bits
      ensures Valid() && Had(Apply(old(Abstract()), destination.Length, AppendEndArray), r)
    {
      r := AppendContainerEnd(RIGHT_BRACKET);
    }

    /** A run with the tokens already read in front. */
    static ghost function Continued(read: seq<Token>, run: RunResult): RunResult {
      RunResult(read + run.tokens, run.result)
    }

    static lemma {:induction false} RunStep(read: seq<Token>, s: State)
      ensures Step(s).Stop? ==> Continued(read, Run(s)) == RunResult(read, Step(s).result)
      ensures Step(s).Next? ==>
                Continued(read, Run(s)) == Continued(read + [Step(s).token], Run(Step(s).state))
                && |Step(s).state.rest| < |s.rest|
      ensures s.kind == NoToken ==> Step(s) != Stop(ReaderDone)
      ensures Continued([], Run(s)) == Run(s)
    {
      hide Step;
      EmptyRight(read);
      EmptyLeft(Run(s).tokens);
      if Step(s).Next? {
        Assoc(read, [Step(s).token], Run(Step(s).state).tokens);
      } else if Step(s).result == ReaderDone {
        StepDone(s);
      }
    }

    /** writer_validate_json_text: reads the fragment to its end and reports the kind of its last token. */
    static method ValidateJsonText(json: bytes) returns (r: Result, lastKind: Kind)
      requires json != [] && IsBufferLength(|json|)
      ensures var run := Run(Init(json));
              r == (if run.result == ReaderDone then Ok else run.result)
              && (r == Ok ==> lastKind == LastKind(run.tokens))
    {
      hide Step, Run, Continued, Unpack, Pow2, LastKind;
      var reader := new JsonReader(json);
      ghost var read: seq<Token> := [];
      lastKind := NoToken;
      RunFromStart(json);
      r, read := ReadNext(reader, read);
      if r != Ok {
        return;
      }
      while true
        invariant reader.Valid() && fresh(reader) && fresh(reader.bits)
        invariant LastKind(read) == reader.token.kind
        invariant Run(Init(json)) == Continued(read, Run(reader.Abstract()))
        decreases |reader.json| - reader.bytesConsumed
      {
        r, read := ReadNext(reader, read);
        if r != Ok {
          break;
        }
      }
      if r != ReaderDone {
        return;
      }
      lastKind := reader.token.kind;
      return Ok, lastKind;
    }

    /** One more call of json_reader_next_token behind the tokens read. */
    static method ReadNext(reader: JsonReader, ghost read: seq<Token>) returns (r: Result, ghost now: seq<Token>)
      requires reader.Valid()
      modifies reader, reader.bits
      ensures reader.Valid()
      ensures r == Ok ==>
                LastKind(now) == reader.token.kind && old(reader.bytesConsumed) < reader.bytesConsumed
                && Continued(read, Run(old(reader.Abstract()))) == Continued(now, Run(reader.Abstract()))
      ensures r != Ok ==> now == read && Continued(read, Run(old(reader.Abstract()))) == RunResult(read, r)
      ensures r == ReaderDone ==> reader.token.kind == old(reader.token.kind) != NoToken
    {
      hide Step, Run, Continued, Unpack, Pow2, LastKind;
      RunStep(read, reader.Abstract());
      r := reader.NextToken();
      now := read;
      if r == Ok {
        LastKindAppend(read, reader.token);
        now := read + [reader.token];
      }
    }

    static lemma {:induction false} RunFromStart(json: bytes)
      ensures Continued([], Run(Init(json))) == Run(Init(json))
    {
      hide Run;
      EmptyLeft(Run(Init(json)).tokens);
    }

    static lemma {:induction false} LastKindAppend(read: seq<Token>, token: Token)
      ensures LastKind(read + [token]) == token.kind
    {
    }

    /** json_writer_append_json_text */
    method AppendFragment(json: bytes) returns (r: Result)
      requires Valid() && IsBufferLength(|json|)
      modifies this, destination
      ensures Valid() && Had(Apply(old(Abstract()), destination.Length, AppendJsonText(json)), r)
    {
      hide Run;
      if |json| == 0 {
        return InvalidArgument;
      }
      var lastKind;
      r, lastKind := ValidateJsonText(json);
      if r != Ok {
        return;
      }
      if !CanAppend() {
        return InvalidState;
      }
      var required := |json|;
      if needComma {
        required := required + 1;
      }
      if destination.Length - bytesWritten < required {
        return InsufficientSize;
      }
      Assoc(destination[..bytesWritten], Comma(Abstract()), json);
      var at := StoreComma();
      at := Store(at, json);
      Advance(required, true, lastKind);
      return Ok;
    }

    /** Any of the append calls. */
    method Perform(call: Call) returns (r: Result)
      requires Valid() && (call.AppendJsonText? ==> IsBufferLength(|call.json|))
      modifies this, destination, bits
      ensures Valid() && Had(Apply(old(Abstract()), destination.Length, call), r)
    {
      hide Apply, Had;
      match call
      case AppendString(value) => r := AppendStringValue(value);
      case AppendPropertyName(name) => r := AppendName(name);
      case AppendBool(flag) => r := AppendBoolean(flag);
      case AppendInt32(number) => r := AppendInteger(number);
      case AppendNull => r := AppendNullValue();
      case AppendBeginObject => r := BeginObjectValue();
      case AppendEndObject => r := EndObjectValue();
      case AppendBeginArray => r := BeginArrayValue();
      case AppendEndArray => r := EndArrayValue();
      case AppendJsonText(json) => r := AppendFragment(json);
    }

    /** A run of append calls, whatever their results: the buffer holds what WriteAll says. */
    method PerformAll(calls: seq<Call>) returns (results: seq<Result>)
      requires Valid() && forall k :: 0 <= k < |calls| && calls[k].AppendJsonText? ==> IsBufferLength(|calls[k].json|)
      modifies this, destination, bits
      ensures Valid() && Abstract() == WriteAll(old(Abstract()), destination.Length, calls).writer
      ensures results == Results(old(Abstract()), destination.Length, calls)
    {
      hide Apply;
      results := [];
      ghost var w, capacity := Abstract(), destination.Length;
      assert calls[0..] == calls;
      for k := 0 to |calls|
        invariant Valid() && WriteAll(Abstract(), capacity, calls[k..]).writer == WriteAll(w, capacity, calls).writer
        invariant results + Results(Abstract(), capacity, calls[k..]) == Results(w, capacity, calls)
      {
        assert calls[k..][0] == calls[k] && calls[k..][1..] == calls[k + 1..];
        var r := Perform(calls[k]);
        results := results + [r];
      }
    }
  }
}
