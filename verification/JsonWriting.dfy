/**
 The writer of src/json_writer.c as a state machine on values, and what its output is: for any
 run of append calls that closes its containers, a JSON text whose tokens are the calls that succeeded.
 */
module JsonWriting {
  import opened Common
  import opened JsonLexical
  import opened JsonGrammar
  import opened JsonAutomaton
  import opened JsonTokenizer
  import opened JsonStrings
  import opened JsonTokens
  import opened Decimal

  const MAX_UNESCAPED_STRING_SIZE := 1_000_000_000 / 6
  const MAX_SIZE_FOR_INT32 := 11

  datatype Call =
    | AppendString(value: bytes)
    | AppendPropertyName(name: bytes)
    | AppendBool(flag: bool)
    | AppendInt32(number: int32)
    | AppendNull
    | AppendBeginObject
    | AppendEndObject
    | AppendBeginArray
    | AppendEndArray
    | AppendJsonText(json: bytes)

  /** The writer between two calls; `doc` is the document so far. */
  datatype Writer = Writer(kind: Kind, needComma: bool, stack: Stack, doc: bytes)

  datatype Outcome = Outcome(result: Result, writer: Writer)

  const FRESH := Writer(NoToken, false, [], [])

  predicate TopIs(s: Stack, item: Container) {
    s != [] && s[|s| - 1] == item
  }

  predicate CanAppendValue(w: Writer) {
    if TopIs(w.stack, InObject) then w.kind == PropertyName else w.stack != [] || w.kind == NoToken
  }

  predicate CanAppendName(w: Writer) {
    TopIs(w.stack, InObject) && w.kind != PropertyName
  }

  predicate CanAppendEnd(w: Writer, item: Container) {
    TopIs(w.stack, item) && w.kind != PropertyName
  }

  function Comma(w: Writer): bytes {
    if w.needComma then [COMMA] else []
  }

  /** Appends `text` behind a due comma when that and `size` more bytes fit. */
  function Put(w: Writer, capacity: nat, comma: bytes, size: nat, text: bytes, kind: Kind, needComma: bool,
               stack: Stack): Outcome
  {
    if capacity < |w.doc| + |comma| + size then Outcome(InsufficientSize, w)
    else Outcome(Ok, Writer(kind, needComma, stack, w.doc + (comma + text)))
  }

  function PutScalar(w: Writer, capacity: nat, size: nat, scalar: Scalar): Outcome {
    if !CanAppendValue(w) then Outcome(InvalidArgument, w)
    else Put(w, capacity, Comma(w), size, ScalarText(scalar), ScalarToken(scalar).kind, true, w.stack)
  }

  function PutOpen(w: Writer, capacity: nat, token: Token, item: Container): Outcome {
    if !CanAppendValue(w) then Outcome(InvalidArgument, w)
    else if |w.stack| >= MAX_DEPTH then Outcome(NestingOverflow, w)
    else Put(w, capacity, Comma(w), 1, token.text, token.kind, false, w.stack + [item])
  }

  /** No comma precedes a closing bracket. */
  function PutClose(w: Writer, capacity: nat, token: Token, item: Container): Outcome {
    if !CanAppendEnd(w, item) then Outcome(InvalidArgument, w)
    else Put(w, capacity, [], 1, token.text, token.kind, true, w.stack[..|w.stack| - 1])
  }

  function LastKind(tokens: seq<Token>): Kind {
    if tokens == [] then NoToken else tokens[|tokens| - 1].kind
  }

  /** writer_validate_json_text decides by a whole run of the reader. */
  function PutJsonText(w: Writer, capacity: nat, json: bytes): Outcome {
    if json == [] then Outcome(InvalidArgument, w)
    else
      var run := Run(Init(json));
      if run.result != ReaderDone then Outcome(run.result, w)
      else if !CanAppendValue(w) then Outcome(InvalidState, w)
      else Put(w, capacity, Comma(w), |json|, json, LastKind(run.tokens), true, w.stack)
  }

  function PutString(w: Writer, capacity: nat, value: bytes): Outcome {
    if !CanAppendValue(w) || |value| > MAX_UNESCAPED_STRING_SIZE then Outcome(InvalidArgument, w)
    else Put(w, capacity, Comma(w), |Quoted(Escape(value))|, Quoted(Escape(value)), StringToken, true, w.stack)
  }

  function PutName(w: Writer, capacity: nat, name: bytes): Outcome {
    if name == [] || !CanAppendName(w) || |name| > MAX_UNESCAPED_STRING_SIZE then Outcome(InvalidArgument, w)
    else
      var text := NameText(Escape(name), []);
      Put(w, capacity, Comma(w), |text|, text, PropertyName, false, w.stack)
  }

  /** An integer is written only where the longest int32 would fit. */
  function PutInt32(w: Writer, capacity: nat, number: int32): Outcome {
    if !CanAppendValue(w) then Outcome(InvalidArgument, w)
    else Put(w, capacity, Comma(w), MAX_SIZE_FOR_INT32, IntText(number), NumberToken, true, w.stack)
  }

  /** One append call on a writer whose buffer holds `capacity` bytes. */
  function Apply(w: Writer, capacity: nat, call: Call): Outcome {
    match call
    case AppendString(value) => PutString(w, capacity, value)
    case AppendPropertyName(name) => PutName(w, capacity, name)
    case AppendBool(flag) => PutScalar(w, capacity, if flag then 4 else 5, if flag then True else False)
    case AppendInt32(number) => PutInt32(w, capacity, number)
    case AppendNull => PutScalar(w, capacity, 4, Null)
    case AppendBeginObject => PutOpen(w, capacity, BEGIN_OBJECT, InObject)
    case AppendEndObject => PutClose(w, capacity, END_OBJECT, InObject)
    case AppendBeginArray => PutOpen(w, capacity, BEGIN_ARRAY, InArray)
    case AppendEndArray => PutClose(w, capacity, END_ARRAY, InArray)
    case AppendJsonText(json) => PutJsonText(w, capacity, json)
  }

  /** The tokens a successful call stands for. */
  function CallTokens(call: Call): seq<Token> {
    match call
    case AppendString(value) => [BodyToken(StringToken, Escape(value))]
    case AppendPropertyName(name) => [BodyToken(PropertyName, Escape(name))]
    case AppendBool(flag) => [ScalarToken(if flag then True else False)]
    case AppendInt32(number) => [Token(NumberToken, IntText(number), false)]
    case AppendNull => [ScalarToken(Null)]
    case AppendBeginObject => [BEGIN_OBJECT]
    case AppendEndObject => [END_OBJECT]
    case AppendBeginArray => [BEGIN_ARRAY]
    case AppendEndArray => [END_ARRAY]
    case AppendJsonText(json) => Run(Init(json)).tokens
  }

  /** A run of calls, failed ones included, and the tokens of those that succeeded. */
  datatype Session = Session(writer: Writer, tokens: seq<Token>)

  function WriteAll(w: Writer, capacity: nat, calls: seq<Call>): Session
    decreases |calls|
  {
    if calls == [] then Session(w, [])
    else
      var o := Apply(w, capacity, calls[0]);
      var later := WriteAll(o.writer, capacity, calls[1..]);
      if o.result == Ok then Session(later.writer, CallTokens(calls[0]) + later.tokens) else later
  }

  /** What the calls of a run return, one by one. */
  function Results(w: Writer, capacity: nat, calls: seq<Call>): seq<Result>
    decreases |calls|
  {
    if calls == [] then []
    else
      var o := Apply(w, capacity, calls[0]);
      [o.result] + Results(o.writer, capacity, calls[1..])
  }

  /** The document is closed: everything opened is closed and something was written. */
  predicate Closed(w: Writer) {
    w.stack == [] && w.kind != NoToken
  }

  // ---------------------------------------------------------------- failed calls

  /** A failed call leaves the writer as it was; no call takes back what is written. */
  lemma {:induction false} CallsOnlyAdd(w: Writer, capacity: nat, call: Call)
    ensures Apply(w, capacity, call).result != Ok ==> Apply(w, capacity, call).writer == w
    ensures w.doc <= Apply(w, capacity, call).writer.doc
  {
    hide Run;
  }

  /** A successful call stays within the buffer. */
  lemma {:induction false} DocumentFits(w: Writer, capacity: nat, call: Call)
    requires |w.doc| <= capacity
    ensures |Apply(w, capacity, call).writer.doc| <= capacity
  {
    hide Run;
    if call.AppendInt32? {
      IntTextShort(call.number);
    }
  }

  lemma {:induction false} IntTextShort(v: int32)
    ensures |IntText(v)| <= MAX_SIZE_FOR_INT32
  {
    assert Pow10(5) == 100_000 && Pow10(10) == 100_000 * Pow10(5);
    DecimalTextLength(Abs(v), 10);
  }

  // ---------------------------------------------------------------- the document as a derivation

  /** What holds of a writer after any calls. */
  predicate Orderly(w: Writer) {
    |w.stack| <= MAX_DEPTH
    && (w.kind == NoToken ==> w.stack == [])
    && (w.kind == BeginArray ==> TopIs(w.stack, InArray))
    && (w.kind == BeginObject || w.kind == PropertyName ==> TopIs(w.stack, InObject))
    && w.needComma == IsAfterValue(w.kind)
  }

  lemma {:induction false} LastKindOfDocument(json: bytes)
    requires Run(Init(json)).result == ReaderDone
    ensures IsAfterValue(LastKind(Run(Init(json)).tokens))
  {
    var todo := RunSound(Init(json));
    EndsInValue(todo.value);
  }

  /** The last token of a value is the value itself or the close of a container. */
  lemma {:induction false} EndsInValue(v: Value)
    ensures Tokens(v) != [] && IsAfterValue(LastKind(Tokens(v)))
  {
    match v
    case Primitive(_) =>
    case Array(NoItems(_)) =>
    case Array(FirstItem(_, item, more)) => EndsInClose(more);
    case Object(NoMembers(_)) =>
    case Object(FirstMember(_, _, _, _, value, more)) => MembersEndInClose(more);
  }

  lemma {:induction false} EndsInClose(more: MoreItems)
    ensures MoreItemsTokens(more) != [] && LastKind(MoreItemsTokens(more)) == EndArray
  {
    if more.NextItem? {
      EndsInClose(more.more);
    }
  }

  lemma {:induction false} MembersEndInClose(more: MoreMembers)
    ensures MoreMembersTokens(more) != [] && LastKind(MoreMembersTokens(more)) == EndObject
  {
    if more.NextMember? {
      MembersEndInClose(more.more);
    }
  }

  lemma {:induction false} StaysOrderly(w: Writer, capacity: nat, call: Call)
    requires Orderly(w)
    ensures Orderly(Apply(w, capacity, call).writer)
  {
    hide Run, Escape, IntText;
    if call.AppendJsonText? && Run(Init(call.json)).result == ReaderDone {
      LastKindOfDocument(call.json);
    }
  }

  /** The cut where a value comes next: `ws` and then the value behind the writer's last token. */
  function BeforeValue(w: Writer, ws: Blank, v: Value, tail: Tail): Todo
    requires Orderly(w) && CanAppendValue(w) && StackOf(tail) == w.stack
  {
    if w.kind == NoToken then AtStart(ws, v, tail.ws)
    else if w.kind == BeginArray then AtItems(FirstItem(ws, v, tail.items), tail.up)
    else if w.kind == PropertyName then AtValue(ws, v, tail.members, tail.up)
    else AfterValue(ArrayTail(NextItem([], ws, v, tail.items), tail.up))
  }

  /** `todo` is what a writer in this state still has to be given. */
  predicate Awaits(w: Writer, todo: Todo) {
    TodoStack(todo) == w.stack && FitsKind(todo, w.kind)
  }

  lemma {:induction false} BeforeValueExact(w: Writer, ws: Blank, v: Value, tail: Tail)
    requires Orderly(w) && CanAppendValue(w) && StackOf(tail) == w.stack
    ensures var todo := BeforeValue(w, ws, v, tail);
            Awaits(w, todo)
            && TodoText(todo) == Comma(w) + (ws + (Text(v) + TailText(tail)))
            && TodoTokens(todo) == Tokens(v) + TailTokens(tail)
  {
    hide Text, Tokens;
    EmptyLeft(ws + (Text(v) + TailText(tail)));
    if w.kind == NoToken {
      EmptyRight(Tokens(v));
    } else if w.kind == BeginArray {
      BeforeFirstItem(ws, v, tail.items, tail.up);
    } else if w.kind != PropertyName {
      BeforeNextItem(ws, v, tail.items, tail.up);
    }
  }

  lemma {:induction false} BeforeFirstItem(ws: Blank, v: Value, items: MoreItems, up: Tail)
    ensures var todo, tail := AtItems(FirstItem(ws, v, items), up), ArrayTail(items, up);
            TodoText(todo) == ws + (Text(v) + TailText(tail)) && TodoTokens(todo) == Tokens(v) + TailTokens(tail)
  {
    hide Text, Tokens;
    FirstItemText(ws, v, items, up);
    Assoc(Tokens(v), MoreItemsTokens(items), TailTokens(up));
  }

  lemma {:induction false} BeforeNextItem(ws: Blank, v: Value, items: MoreItems, up: Tail)
    ensures var todo, tail := AfterValue(ArrayTail(NextItem([], ws, v, items), up)), ArrayTail(items, up);
            TodoText(todo) == [COMMA] + (ws + (Text(v) + TailText(tail)))
            && TodoTokens(todo) == Tokens(v) + TailTokens(tail)
  {
    hide Text, Tokens;
    NextItemText([], ws, v, items, up);
    EmptyLeft([COMMA] + (ws + (Text(v) + TailText(ArrayTail(items, up)))));
    Assoc(Tokens(v), MoreItemsTokens(items), TailTokens(up));
  }

  function BeforeName(w: Writer, name: Body, next: Todo): Todo
    requires Orderly(w) && CanAppendName(w) && next.AtValue?
  {
    if w.kind == BeginObject then AtMembers(FirstMember([], name, [], next.gap, next.value, next.more), next.up)
    else AfterValue(ObjectTail(NextMember([], [], name, [], next.gap, next.value, next.more), next.up))
  }

  lemma {:induction false} BeforeNameExact(w: Writer, name: Body, next: Todo)
    requires Orderly(w) && CanAppendName(w) && next.AtValue? && TodoStack(next) == w.stack
    ensures var todo := BeforeName(w, name, next);
            Awaits(w, todo)
            && TodoText(todo) == Comma(w) + (NameText(name, []) + TodoText(next))
            && TodoTokens(todo) == [BodyToken(PropertyName, name)] + TodoTokens(next)
  {
    hide Text, Tokens, NameText;
    var t := NameText(name, []) + TodoText(next);
    EmptyLeft(t);
    NamedTokens(BodyToken(PropertyName, name), next.value, next.more, next.up);
    if w.kind == BeginObject {
      FirstMemberText([], name, [], next.gap, next.value, next.more, next.up);
    } else {
      NextMemberText([], [], name, [], next.gap, next.value, next.more, next.up);
      EmptyLeft([COMMA] + t);
    }
  }

  function BeforeClose(w: Writer, item: Container, up: Tail): Todo
    requires Orderly(w) && CanAppendEnd(w, item)
  {
    if item == InArray then
      if w.kind == BeginArray then AtItems(NoItems([]), up) else AfterValue(ArrayTail(CloseItems([]), up))
    else
      if w.kind == BeginObject then AtMembers(NoMembers([]), up) else AfterValue(ObjectTail(CloseMembers([]), up))
  }

  lemma {:induction false} BeforeCloseExact(w: Writer, item: Container, up: Tail)
    requires Orderly(w) && CanAppendEnd(w, item) && StackOf(up) == w.stack[..|w.stack| - 1]
    ensures var todo := BeforeClose(w, item, up);
            var token := if item == InArray then END_ARRAY else END_OBJECT;
            Awaits(w, todo)
            && TodoText(todo) == token.text + TailText(up) && TodoTokens(todo) == [token] + TailTokens(up)
  {
    LastContainer(w.stack);
    EmptyLeft([RIGHT_BRACKET]);
    EmptyLeft([RIGHT_BRACE]);
  }

  // ---------------------------------------------------------------- splicing

  /** White space of a fragment's end goes to whatever follows it. */
  function Pad(ws: Blank, tail: Tail): Tail {
    match tail
    case Finish(end) => Finish(ws + end)
    case ArrayTail(CloseItems(w), up) => ArrayTail(CloseItems(ws + w), up)
    case ArrayTail(NextItem(w, after, item, more), up) => ArrayTail(NextItem(ws + w, after, item, more), up)
    case ObjectTail(CloseMembers(w), up) => ObjectTail(CloseMembers(ws + w), up)
    case ObjectTail(NextMember(w, after, name, colon, gap, value, more), up) =>
      ObjectTail(NextMember(ws + w, after, name, colon, gap, value, more), up)
  }

  lemma {:induction false} PadExact(ws: Blank, tail: Tail)
    ensures TailText(Pad(ws, tail)) == ws + TailText(tail)
    ensures TailTokens(Pad(ws, tail)) == TailTokens(tail) && StackOf(Pad(ws, tail)) == StackOf(tail)
  {
    hide Text, Tokens;
    match tail
    case Finish(_) =>
    case ArrayTail(CloseItems(w), up) => PadText(ws, w, [RIGHT_BRACKET], TailText(up));
    case ArrayTail(NextItem(w, after, item, more), up) =>
      PadText(ws, w, [COMMA] + (after + (Text(item) + MoreItemsText(more))), TailText(up));
    case ObjectTail(CloseMembers(w), up) => PadText(ws, w, [RIGHT_BRACE], TailText(up));
    case ObjectTail(NextMember(w, after, name, colon, gap, value, more), up) =>
      PadText(ws, w, [COMMA] + (after + (NameText(name, colon) + (gap + (Text(value) + MoreMembersText(more))))),
              TailText(up));
  }

  lemma {:induction false} PadText(ws: bytes, w: bytes, t: bytes, up: bytes)
    ensures ws + w + t + up == ws + (w + t + up)
  {
    Assoc(ws, w, t);
    Assoc(ws, w + t, up);
  }

  /**
   A fragment accepted on its own keeps its meaning where it is spliced: the derivation of the
   whole is the fragment's value put into the surrounding derivation, white space kept, a bare
   number's end of buffer replaced by the byte that follows.
   */
  lemma {:induction false} SpliceExact(w: Writer, json: bytes, tail: Tail) returns (todo: Todo)
    requires Orderly(w) && CanAppendValue(w) && StackOf(tail) == w.stack
    requires Run(Init(json)).result == ReaderDone
    ensures Awaits(w, todo)
    ensures TodoText(todo) == Comma(w) + (json + TailText(tail))
    ensures TodoTokens(todo) == Run(Init(json)).tokens + TailTokens(tail)
  {
    var cut := RunSound(Init(json));
    var padded := Pad(cut.end, tail);
    PadExact(cut.end, tail);
    todo := BeforeValue(w, cut.before, cut.value, padded);
    BeforeValueExact(w, cut.before, cut.value, padded);
    Assoc(Text(cut.value), cut.end, TailText(tail));
    Assoc(cut.before, Text(cut.value) + cut.end, TailText(tail));
  }

  // ---------------------------------------------------------------- round trip

  lemma {:induction false} FormAt(w: Writer, scalar: Scalar, tail: Tail) returns (todo: Todo)
    requires Orderly(w) && CanAppendValue(w) && StackOf(tail) == w.stack
    ensures Awaits(w, todo) && TodoText(todo) == Comma(w) + (ScalarText(scalar) + TailText(tail))
    ensures TodoTokens(todo) == [ScalarToken(scalar)] + TailTokens(tail)
  {
    var v := Primitive(scalar);
    todo := BeforeValue(w, [], v, tail);
    BeforeValueExact(w, [], v, tail);
    EmptyLeft(Text(v) + TailText(tail));
  }

  lemma {:induction false} OpenAt(w: Writer, v: Value, tail: Tail) returns (todo: Todo)
    requires Orderly(w) && CanAppendValue(w) && StackOf(tail) == w.stack && IsContainer(v)
    ensures Awaits(w, todo) && TodoText(todo) == Comma(w) + (HeadOf(v).text + TodoText(Enter(v, tail)))
    ensures TodoTokens(todo) == [HeadOf(v)] + TodoTokens(Enter(v, tail))
  {
    todo := BeforeValue(w, [], v, tail);
    BeforeValueExact(w, [], v, tail);
    EmptyLeft(Text(v) + TailText(tail));
    EnterTokens(v, tail);
    if v.Array? {
      Assoc([LEFT_BRACKET], ItemsText(v.items), TailText(tail));
    } else {
      Assoc([LEFT_BRACE], MembersText(v.members), TailText(tail));
    }
  }

  /** `todo` is to be written before a call that put `text` behind `comma`, `next` after it. */
  predicate Precedes(w: Writer, todo: Todo, comma: bytes, text: bytes, tokens: seq<Token>, next: Todo) {
    Awaits(w, todo)
    && TodoText(todo) == comma + (text + TodoText(next))
    && TodoTokens(todo) == tokens + TodoTokens(next)
  }

  lemma {:induction false} PutExact(w: Writer, comma: bytes, text: bytes, rest: bytes)
    ensures w.doc + (comma + text) + rest == w.doc + (comma + (text + rest))
  {
    Assoc(comma, text, rest);
    Assoc(w.doc, comma + text, rest);
  }

  lemma {:induction false} ScalarCall(w: Writer, scalar: Scalar, next: Todo) returns (todo: Todo)
    requires Orderly(w) && CanAppendValue(w) && next.AfterValue? && TodoStack(next) == w.stack
    ensures Precedes(w, todo, Comma(w), ScalarText(scalar), [ScalarToken(scalar)], next)
  {
    todo := FormAt(w, scalar, next.tail);
  }

  lemma {:induction false} OpenCall(w: Writer, item: Container, next: Todo) returns (todo: Todo)
    requires Orderly(w) && CanAppendValue(w) && TodoStack(next) == w.stack + [item]
    requires FitsKind(next, if item == InArray then BeginArray else BeginObject)
    ensures var token := if item == InArray then BEGIN_ARRAY else BEGIN_OBJECT;
            Precedes(w, todo, Comma(w), token.text, [token], next)
  {
    var v := if item == InArray then Array(next.items) else Object(next.members);
    WithoutLast(StackOf(next.up), w.stack, item);
    todo := OpenAt(w, v, next.up);
  }

  lemma {:induction false} WithoutLast(a: Stack, b: Stack, item: Container)
    requires a + [item] == b + [item]
    ensures a == b
  {
    assert (a + [item])[..|a|] == a && (b + [item])[..|b|] == b;
  }

  lemma {:induction false} CloseCall(w: Writer, item: Container, next: Todo) returns (todo: Todo)
    requires Orderly(w) && CanAppendEnd(w, item) && next.AfterValue? && TodoStack(next) == w.stack[..|w.stack| - 1]
    ensures var token := if item == InArray then END_ARRAY else END_OBJECT;
            Precedes(w, todo, [], token.text, [token], next)
  {
    todo := BeforeClose(w, item, next.tail);
    BeforeCloseExact(w, item, next.tail);
    EmptyLeft(TodoText(todo));
  }

  lemma {:induction false} NameCall(w: Writer, name: Body, next: Todo) returns (todo: Todo)
    requires Orderly(w) && CanAppendName(w) && next.AtValue? && TodoStack(next) == w.stack
    ensures Precedes(w, todo, Comma(w), NameText(name, []), [BodyToken(PropertyName, name)], next)
  {
    todo := BeforeName(w, name, next);
    BeforeNameExact(w, name, next);
  }

  lemma {:induction false} TextCall(w: Writer, json: bytes, next: Todo) returns (todo: Todo)
    requires Orderly(w) && CanAppendValue(w) && next.AfterValue? && TodoStack(next) == w.stack
    requires Run(Init(json)).result == ReaderDone
    ensures Precedes(w, todo, Comma(w), json, Run(Init(json)).tokens, next)
  {
    todo := SpliceExact(w, json, next.tail);
  }

  /** The bytes a call writes, comma apart. */
  function CallText(call: Call): bytes {
    match call
    case AppendString(value) => Quoted(Escape(value))
    case AppendPropertyName(name) => NameText(Escape(name), [])
    case AppendBool(flag) => if flag then TRUE_TEXT else FALSE_TEXT
    case AppendInt32(number) => IntText(number)
    case AppendNull => NULL_TEXT
    case AppendBeginObject => [LEFT_BRACE]
    case AppendEndObject => [RIGHT_BRACE]
    case AppendBeginArray => [LEFT_BRACKET]
    case AppendEndArray => [RIGHT_BRACKET]
    case AppendJsonText(json) => json
  }

  function CallComma(w: Writer, call: Call): bytes {
    if call.AppendEndArray? || call.AppendEndObject? then [] else Comma(w)
  }

  lemma {:induction false} CallWrites(w: Writer, capacity: nat, call: Call)
    requires Apply(w, capacity, call).result == Ok
    ensures Apply(w, capacity, call).writer.doc == w.doc + (CallComma(w, call) + CallText(call))
  {
    hide Run, Escape, IntText;
  }

  predicate IsScalarCall(call: Call) {
    call.AppendString? || call.AppendBool? || call.AppendInt32? || call.AppendNull?
  }

  /** A scalar is written only where a value may stand, and what follows stands behind that value. */
  lemma {:induction false} ScalarCallPlace(w: Writer, capacity: nat, call: Call, next: Todo)
    requires IsScalarCall(call)
    requires Apply(w, capacity, call).result == Ok && Awaits(Apply(w, capacity, call).writer, next)
    ensures CanAppendValue(w) && next.AfterValue? && TodoStack(next) == w.stack && CallComma(w, call) == Comma(w)
  {
    hide Escape, Quoted, IntText, CanAppendValue, TodoStack;
  }

  lemma {:induction false} ScalarCallForm(call: Call) returns (scalar: Scalar)
    requires IsScalarCall(call)
    ensures CallText(call) == ScalarText(scalar) && CallTokens(call) == [ScalarToken(scalar)]
  {
    hide Escape, IntText, Quoted, IsBody, Unescape;
    match call
    case AppendString(value) =>
      EscapeInvertible(value);
      scalar := Str(Escape(value));
    case AppendInt32(number) =>
      var n := IntTextIsNumber(number);
      scalar := Num(n);
    case AppendBool(flag) => scalar := if flag then True else False;
    case AppendNull => scalar := Null;
  }

  lemma {:induction false} ScalarCallPrecedes(w: Writer, capacity: nat, call: Call, next: Todo) returns (todo: Todo)
    requires IsScalarCall(call)
    requires Orderly(w) && Apply(w, capacity, call).result == Ok && Awaits(Apply(w, capacity, call).writer, next)
    ensures Precedes(w, todo, CallComma(w, call), CallText(call), CallTokens(call), next)
  {
    hide *;
    ScalarCallPlace(w, capacity, call, next);
    var scalar := ScalarCallForm(call);
    todo := ScalarCall(w, scalar, next);
  }

  lemma {:induction false} BracketCallPrecedes(w: Writer, capacity: nat, call: Call, next: Todo) returns (todo: Todo)
    requires call.AppendBeginObject? || call.AppendEndObject? || call.AppendBeginArray? || call.AppendEndArray?
    requires Orderly(w) && Apply(w, capacity, call).result == Ok && Awaits(Apply(w, capacity, call).writer, next)
    ensures Precedes(w, todo, CallComma(w, call), CallText(call), CallTokens(call), next)
  {
    hide Precedes, TodoText, TodoTokens;
    match call
    case AppendBeginObject => todo := OpenCall(w, InObject, next);
    case AppendEndObject => todo := CloseCall(w, InObject, next);
    case AppendBeginArray => todo := OpenCall(w, InArray, next);
    case AppendEndArray => todo := CloseCall(w, InArray, next);
  }

  lemma {:induction false} NameCallPrecedes(w: Writer, capacity: nat, call: Call, next: Todo) returns (todo: Todo)
    requires call.AppendPropertyName?
    requires Orderly(w) && Apply(w, capacity, call).result == Ok && Awaits(Apply(w, capacity, call).writer, next)
    ensures Precedes(w, todo, CallComma(w, call), CallText(call), CallTokens(call), next)
  {
    hide Precedes, Escape, NameText, TodoText, TodoTokens;
    EscapeInvertible(call.name);
    todo := NameCall(w, Escape(call.name), next);
  }

  lemma {:induction false} FragmentCallPrecedes(w: Writer, capacity: nat, call: Call, next: Todo) returns (todo: Todo)
    requires call.AppendJsonText?
    requires Orderly(w) && Apply(w, capacity, call).result == Ok && Awaits(Apply(w, capacity, call).writer, next)
    ensures Precedes(w, todo, CallComma(w, call), CallText(call), CallTokens(call), next)
  {
    hide Precedes, Run, TodoText, TodoTokens;
    LastKindOfDocument(call.json);
    todo := TextCall(w, call.json, next);
  }

  /** One successful call, backwards: what was to be written before it, from what is to be written after it. */
  lemma {:induction false} CallPrecedes(w: Writer, capacity: nat, call: Call, next: Todo) returns (todo: Todo)
    requires Orderly(w) && Apply(w, capacity, call).result == Ok && Awaits(Apply(w, capacity, call).writer, next)
    ensures Precedes(w, todo, CallComma(w, call), CallText(call), CallTokens(call), next)
  {
    hide Apply, Awaits, Orderly, Precedes, CallText, CallTokens, CallComma;
    if call.AppendPropertyName? {
      todo := NameCallPrecedes(w, capacity, call, next);
    } else if call.AppendJsonText? {
      todo := FragmentCallPrecedes(w, capacity, call, next);
    } else if IsScalarCall(call) {
      todo := ScalarCallPrecedes(w, capacity, call, next);
    } else {
      todo := BracketCallPrecedes(w, capacity, call, next);
    }
  }

  lemma {:induction false} CallExact(w: Writer, capacity: nat, call: Call, next: Todo) returns (todo: Todo)
    requires Orderly(w) && Apply(w, capacity, call).result == Ok && Awaits(Apply(w, capacity, call).writer, next)
    ensures Awaits(w, todo)
    ensures w.doc + TodoText(todo) == Apply(w, capacity, call).writer.doc + TodoText(next)
    ensures TodoTokens(todo) == CallTokens(call) + TodoTokens(next)
  {
    hide Apply, TodoText, TodoTokens, CallTokens, CallText, CallComma;
    todo := CallPrecedes(w, capacity, call, next);
    CallWrites(w, capacity, call);
    PutExact(w, CallComma(w, call), CallText(call), TodoText(next));
  }

  /** The rest of a session that closes the document, as a derivation of what it writes. */
  lemma {:induction false} SessionExact(w: Writer, capacity: nat, calls: seq<Call>) returns (todo: Todo)
    requires Orderly(w) && Closed(WriteAll(w, capacity, calls).writer)
    ensures Awaits(w, todo)
    ensures w.doc + TodoText(todo) == WriteAll(w, capacity, calls).writer.doc
    ensures TodoTokens(todo) == WriteAll(w, capacity, calls).tokens
    decreases |calls|
  {
    hide Apply, CallTokens;
    if calls == [] {
      todo := AfterValue(Finish([]));
      EmptyRight(w.doc);
    } else {
      var o := Apply(w, capacity, calls[0]);
      StaysOrderly(w, capacity, calls[0]);
      var next := SessionExact(o.writer, capacity, calls[1..]);
      if o.result == Ok {
        todo := CallExact(w, capacity, calls[0], next);
      } else {
        CallsOnlyAdd(w, capacity, calls[0]);
        todo := next;
      }
    }
  }

  /** How many containers are open behind a token, when `open` are before it. */
  function OpenAfter(token: Token, open: nat): nat {
    if token.kind == BeginArray || token.kind == BeginObject then open + 1
    else if (token.kind == EndArray || token.kind == EndObject) && open > 0 then open - 1
    else open
  }

  /** How many containers a token sequence leaves open. */
  function OpenAtEnd(tokens: seq<Token>, open: nat): nat {
    if tokens == [] then open else OpenAtEnd(tokens[1..], OpenAfter(tokens[0], open))
  }

  /** The greatest number of containers a token sequence has open at once, from `open` on. */
  function MaxOpen(tokens: seq<Token>, open: nat): nat {
    if tokens == [] then open else Max(open, MaxOpen(tokens[1..], OpenAfter(tokens[0], open)))
  }

  lemma {:induction false} DepthIsMaxOpen(todo: Todo)
    ensures TodoDepth(todo) == MaxOpen(TodoTokens(todo), |TodoStack(todo)|)
    decreases |TodoTokens(todo)|
  {
    if !IsFinal(todo) {
      AdvanceTokens(todo);
      AdvanceDepth(todo);
      AdvanceHeight(todo);
      assert TodoTokens(todo)[1..] == TodoTokens(Advance(todo));
      DepthIsMaxOpen(Advance(todo));
    }
  }

  lemma {:induction false} AdvanceHeight(todo: Todo)
    requires !IsFinal(todo)
    ensures |TodoStack(Advance(todo))| == OpenAfter(Head(todo), |TodoStack(todo)|)
  {
  }

  /**
   Writing then reading. Any calls, failed ones included, that close the document leave a JSON
   text whose tokens are those of the successful calls, in order; reading it back delivers
   exactly these tokens, unless spliced fragments nest it deeper than the reader allows.
   */
  lemma {:induction false} WriterThenReader(capacity: nat, calls: seq<Call>)
    requires Closed(WriteAll(FRESH, capacity, calls).writer)
    ensures var s := WriteAll(FRESH, capacity, calls);
            var run := Run(Init(s.writer.doc));
            (exists d: Document :: DocumentText(d) == s.writer.doc && Tokens(d.value) == s.tokens)
            && if MaxOpen(s.tokens, 0) <= MAX_DEPTH then run == RunResult(s.tokens, ReaderDone)
               else run.result == NestingOverflow && run.tokens <= s.tokens
  {
    var todo := SessionExact(FRESH, capacity, calls);
    EmptyLeft(TodoText(todo));
    DepthIsMaxOpen(todo);
    var doc := WriteAll(FRESH, capacity, calls).writer.doc;
    RunComplete(Init(doc), todo);
    assert DocumentText(Document(todo.before, todo.value, todo.end)) == doc;
  }

  // ---------------------------------------------------------------- what the tokens say

  /** The calls that succeeded, in order. */
  function Succeeded(w: Writer, capacity: nat, calls: seq<Call>): seq<Call>
    decreases |calls|
  {
    if calls == [] then []
    else
      var o := Apply(w, capacity, calls[0]);
      (if o.result == Ok then [calls[0]] else []) + Succeeded(o.writer, capacity, calls[1..])
  }

  /** The token carries what the call was given. */
  predicate Says(token: Token, call: Call) {
    match call
    case AppendString(value) => token.kind == StringToken && Meaning(token) == Some(value)
    case AppendPropertyName(name) => token.kind == PropertyName && Meaning(token) == Some(name)
    case AppendBool(flag) => token.kind == if flag then TrueToken else FalseToken
    case AppendInt32(number) => token.kind == NumberToken && IntegerValue(token.text) == Some(number)
    case AppendNull => token.kind == NullToken
    case AppendBeginObject => token.kind == BeginObject
    case AppendEndObject => token.kind == EndObject
    case AppendBeginArray => token.kind == BeginArray
    case AppendEndArray => token.kind == EndArray
    case AppendJsonText(_) => false
  }

  predicate SaysAll(tokens: seq<Token>, calls: seq<Call>) {
    |tokens| == |calls| && forall i :: 0 <= i < |calls| ==> Says(tokens[i], calls[i])
  }

  predicate NoFragments(calls: seq<Call>) {
    forall i :: 0 <= i < |calls| ==> !calls[i].AppendJsonText?
  }

  lemma {:induction false} CallSays(call: Call)
    requires !call.AppendJsonText?
    ensures |CallTokens(call)| == 1 && Says(CallTokens(call)[0], call)
  {
    if call.AppendString? {
      EscapeInvertible(call.value);
    } else if call.AppendPropertyName? {
      EscapeInvertible(call.name);
    } else if call.AppendInt32? {
      IntTextValue(call.number);
    }
  }

  /** Without fragments each successful call is one token, and the writer's own limit bounds the nesting. */
  lemma {:induction false} SessionSays(w: Writer, capacity: nat, calls: seq<Call>)
    requires Orderly(w) && NoFragments(calls)
    ensures SaysAll(WriteAll(w, capacity, calls).tokens, Succeeded(w, capacity, calls))
    ensures MaxOpen(WriteAll(w, capacity, calls).tokens, |w.stack|) <= MAX_DEPTH
    decreases |calls|
  {
    if calls != [] {
      var o := Apply(w, capacity, calls[0]);
      StaysOrderly(w, capacity, calls[0]);
      SessionSays(o.writer, capacity, calls[1..]);
      CallSays(calls[0]);
      if o.result == Ok {
        CallHeight(w, capacity, calls[0]);
        var later := WriteAll(o.writer, capacity, calls[1..]).tokens;
        var token := CallTokens(calls[0])[0];
        assert CallTokens(calls[0]) == [token];
        assert ([token] + later)[1..] == later;
      } else {
        CallsOnlyAdd(w, capacity, calls[0]);
        EmptyLeft(Succeeded(o.writer, capacity, calls[1..]));
      }
    }
  }

  lemma {:induction false} CallHeight(w: Writer, capacity: nat, call: Call)
    requires Orderly(w) && Apply(w, capacity, call).result == Ok && !call.AppendJsonText?
    ensures |CallTokens(call)| == 1
    ensures |Apply(w, capacity, call).writer.stack| == OpenAfter(CallTokens(call)[0], |w.stack|)
  {
    hide Escape, IntText;
  }

  /**
   Reading back what was written without fragments delivers the successful calls themselves:
   strings and names unescape to the bytes given and integers read back equal.
   */
  lemma {:induction false} WriterThenReaderSays(capacity: nat, calls: seq<Call>)
    requires NoFragments(calls) && Closed(WriteAll(FRESH, capacity, calls).writer)
    ensures var run := Run(Init(WriteAll(FRESH, capacity, calls).writer.doc));
            run.result == ReaderDone && SaysAll(run.tokens, Succeeded(FRESH, capacity, calls))
  {
    WriterThenReader(capacity, calls);
    SessionSays(FRESH, capacity, calls);
  }
}
