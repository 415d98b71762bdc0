/**
 Which append calls succeed: the exact answer of every call, by what the grammar allows next, and that every
 value can be written by the calls it spells and read back.
 */
module JsonComposing {
  import opened Common
  import opened JsonLexical
  import opened JsonGrammar
  import opened JsonAutomaton
  import opened JsonTokenizer
  import opened JsonStrings
  import opened Decimal
  import opened JsonWriting

  // ---------------------------------------------------------------- what may come next

  /** Some JSON text that goes on from what is written has this token next. */
  ghost predicate MayFollow(w: Writer, token: Token) {
    exists todo :: Awaits(w, todo) && !IsFinal(todo) && Head(todo) == token
  }

  /** The shortest rest of a text behind a value inside these containers. */
  function Closing(stack: Stack): (tail: Tail)
    ensures StackOf(tail) == stack
  {
    if stack == [] then Finish([])
    else
      var up, item := Closing(stack[..|stack| - 1]), stack[|stack| - 1];
      LastContainer(stack);
      if item == InArray then ArrayTail(CloseItems([]), up) else ObjectTail(CloseMembers([]), up)
  }

  /** Where the grammar puts a token, the writer's tests let it pass. */
  lemma {:induction false} HeadAllowed(w: Writer, todo: Todo)
    requires Orderly(w) && Awaits(w, todo) && !IsFinal(todo)
    ensures match Head(todo).kind
            case PropertyName => CanAppendName(w)
            case EndArray => CanAppendEnd(w, InArray)
            case EndObject => CanAppendEnd(w, InObject)
            case _ => CanAppendValue(w)
  {
  }

  lemma {:induction false} BeforeValueHead(w: Writer, v: Value, tail: Tail)
    requires Orderly(w) && CanAppendValue(w) && StackOf(tail) == w.stack
    ensures var todo := BeforeValue(w, [], v, tail); !IsFinal(todo) && Head(todo) == HeadOf(v)
  {
    hide HeadOf;
  }

  /** The head of a value is no name and no close. */
  lemma {:induction false} HeadKind(v: Value)
    ensures HeadOf(v).kind !in {PropertyName, EndArray, EndObject}
  {
  }

  lemma {:induction false} ValueMayFollow(w: Writer, v: Value)
    requires Orderly(w)
    ensures MayFollow(w, HeadOf(v)) <==> CanAppendValue(w)
  {
    hide Orderly, CanAppendValue, CanAppendName, CanAppendEnd, BeforeValue, Head, HeadOf, Awaits, IsFinal;
    hide TodoText, TodoTokens, Text, Tokens;
    if CanAppendValue(w) {
      BeforeValueExact(w, [], v, Closing(w.stack));
      BeforeValueHead(w, v, Closing(w.stack));
    }
    if todo :| Awaits(w, todo) && !IsFinal(todo) && Head(todo) == HeadOf(v) {
      HeadAllowed(w, todo);
      HeadKind(v);
    }
  }

  lemma {:induction false} NameMayFollow(w: Writer, name: Body)
    requires Orderly(w)
    ensures MayFollow(w, BodyToken(PropertyName, name)) <==> CanAppendName(w)
  {
    hide TodoText, TodoTokens, Text, Tokens;
    if CanAppendName(w) {
      var next := AtValue([], Primitive(Null), CloseMembers([]), Closing(w.stack[..|w.stack| - 1]));
      LastContainer(w.stack);
      var todo := BeforeName(w, name, next);
      BeforeNameExact(w, name, next);
      assert Awaits(w, todo) && !IsFinal(todo) && Head(todo) == BodyToken(PropertyName, name);
    }
    if todo :| Awaits(w, todo) && !IsFinal(todo) && Head(todo) == BodyToken(PropertyName, name) {
      HeadAllowed(w, todo);
    }
  }

  lemma {:induction false} CloseMayFollow(w: Writer, item: Container)
    requires Orderly(w)
    ensures MayFollow(w, if item == InArray then END_ARRAY else END_OBJECT) <==> CanAppendEnd(w, item)
  {
    hide TodoText, TodoTokens, Text, Tokens;
    var token := if item == InArray then END_ARRAY else END_OBJECT;
    if CanAppendEnd(w, item) {
      var up := Closing(w.stack[..|w.stack| - 1]);
      var todo := BeforeClose(w, item, up);
      BeforeCloseExact(w, item, up);
      assert Awaits(w, todo) && !IsFinal(todo) && Head(todo) == token;
    }
    if todo :| Awaits(w, todo) && !IsFinal(todo) && Head(todo) == token {
      HeadAllowed(w, todo);
    }
  }

  // ---------------------------------------------------------------- the answer of every call

  /** The text of a call is within the limits of strings and names. */
  predicate IsWritable(call: Call) {
    match call
    case AppendString(value) => |value| <= 166_666_666
    case AppendPropertyName(name) => name != [] && |name| <= 166_666_666
    case _ => true
  }

  predicate OpensOne(call: Call) {
    call.AppendBeginArray? || call.AppendBeginObject?
  }

  /** The bytes that have to be free: the call's own, but for an integer those of the longest one. */
  predicate HasRoom(w: Writer, capacity: nat, call: Call) {
    var size := if call.AppendInt32? then 11 else |CallText(call)|;
    |w.doc| + |CallComma(w, call)| + size <= capacity
  }

  /** The grammar allows what the call adds. */
  ghost predicate Allowed(w: Writer, call: Call) {
    CallTokens(call) != [] && MayFollow(w, CallTokens(call)[0])
  }

  lemma {:induction false} AllowedScalar(w: Writer, call: Call)
    requires Orderly(w) && IsScalarCall(call)
    ensures Allowed(w, call) <==> CanAppendValue(w)
  {
    hide Orderly, CanAppendValue, MayFollow, ScalarText, CallText, ScalarToken;
    var scalar := ScalarCallForm(call);
    ValueMayFollow(w, Primitive(scalar));
  }

  lemma {:induction false} AllowedBracket(w: Writer, call: Call)
    requires Orderly(w)
    ensures OpensOne(call) ==> (Allowed(w, call) <==> CanAppendValue(w))
    ensures call.AppendEndArray? ==> (Allowed(w, call) <==> CanAppendEnd(w, InArray))
    ensures call.AppendEndObject? ==> (Allowed(w, call) <==> CanAppendEnd(w, InObject))
  {
    hide Orderly, CanAppendValue, CanAppendEnd, MayFollow, Escape, IntText, Run;
    ValueMayFollow(w, Array(NoItems([])));
    ValueMayFollow(w, Object(NoMembers([])));
    CloseMayFollow(w, InArray);
    CloseMayFollow(w, InObject);
  }

  lemma {:induction false} AllowedName(w: Writer, call: Call)
    requires Orderly(w) && call.AppendPropertyName?
    ensures Allowed(w, call) <==> CanAppendName(w)
  {
    hide Orderly, CanAppendName, MayFollow, Escape;
    EscapeInvertible(call.name);
    NameMayFollow(w, Escape(call.name));
  }

  lemma {:induction false} AllowedFragment(w: Writer, call: Call)
    requires Orderly(w) && call.AppendJsonText? && Run(Init(call.json)).result == ReaderDone
    ensures Allowed(w, call) <==> CanAppendValue(w)
  {
    hide Orderly, CanAppendValue, MayFollow, Run, Tokens;
    var todo := RunSound(Init(call.json));
    FirstToken(todo.value);
    ValueMayFollow(w, todo.value);
  }

  lemma {:induction false} FirstToken(v: Value)
    ensures Tokens(v) != [] && Tokens(v)[0] == HeadOf(v)
  {
  }

  /**
   The answer of every append call but the splicing one: invalid_argument exactly when no JSON text goes on
   so or the text is beyond the limits; then nesting_overflow exactly for a 65th container; then
   insufficient_size exactly for want of room; otherwise ok.
   */
  lemma {:induction false} CallAnswer(w: Writer, capacity: nat, call: Call)
    requires Orderly(w) && !call.AppendJsonText?
    ensures Apply(w, capacity, call).result ==
            if !Allowed(w, call) || !IsWritable(call) then InvalidArgument
            else if OpensOne(call) && |w.stack| >= 64 then NestingOverflow
            else if !HasRoom(w, capacity, call) then InsufficientSize
            else Ok
  {
    hide Allowed, Orderly, CanAppendValue, CanAppendName, CanAppendEnd, Escape, IntText;
    match call
    case AppendString(_) => AllowedScalar(w, call);
    case AppendPropertyName(_) => AllowedName(w, call);
    case AppendBool(_) => AllowedScalar(w, call);
    case AppendInt32(_) => AllowedScalar(w, call);
    case AppendNull => AllowedScalar(w, call);
    case _ => AllowedBracket(w, call);
  }

  /** The answer of the splicing call: what reading the fragment ends with, then as above but for invalid_state. */
  lemma {:induction false} FragmentAnswer(w: Writer, capacity: nat, call: Call)
    requires Orderly(w) && call.AppendJsonText?
    ensures var read := Run(Init(call.json)).result;
            Apply(w, capacity, call).result ==
            if call.json == [] then InvalidArgument
            else if read != ReaderDone then read
            else if !Allowed(w, call) then InvalidState
            else if !HasRoom(w, capacity, call) then InsufficientSize
            else Ok
  {
    hide Allowed, Orderly, CanAppendValue, Run;
    if Run(Init(call.json)).result == ReaderDone {
      AllowedFragment(w, call);
    }
  }

  // ---------------------------------------------------------------- values

  /** What a program has to say: null, booleans, 32-bit integers, byte strings, lists and records. */
  datatype Data =
    | Nothing
    | Flag(flag: bool)
    | Integer(number: int32)
    | Words(value: bytes)
    | List(items: DataList)
    | Record(fields: Fields)

  datatype DataList = NoItem | Item(head: Data, tail: DataList)

  datatype Fields = NoField | Field(name: bytes, value: Data, rest: Fields)

  /** The calls a value spells. */
  function Spelled(d: Data): seq<Call> {
    match d
    case Nothing => [AppendNull]
    case Flag(flag) => [AppendBool(flag)]
    case Integer(number) => [AppendInt32(number)]
    case Words(value) => [AppendString(value)]
    case List(items) => [AppendBeginArray] + (SpelledItems(items) + [AppendEndArray])
    case Record(fields) => [AppendBeginObject] + (SpelledFields(fields) + [AppendEndObject])
  }

  function SpelledItems(items: DataList): seq<Call> {
    if items == NoItem then [] else Spelled(items.head) + SpelledItems(items.tail)
  }

  function SpelledFields(fields: Fields): seq<Call> {
    if fields == NoField then []
    else [AppendPropertyName(fields.name)] + (Spelled(fields.value) + SpelledFields(fields.rest))
  }

  /** The text without white space. */
  function Compact(d: Data): bytes {
    match d
    case Nothing => Ascii("null")
    case Flag(flag) => if flag then Ascii("true") else Ascii("false")
    case Integer(number) => IntText(number)
    case Words(value) => Ascii("\"") + Escape(value) + Ascii("\"")
    case List(items) => Ascii("[") + CompactItems(items) + Ascii("]")
    case Record(fields) => Ascii("{") + CompactFields(fields) + Ascii("}")
  }

  function CompactItems(items: DataList): bytes {
    match items
    case NoItem => []
    case Item(head, NoItem) => Compact(head)
    case Item(head, tail) => Compact(head) + Ascii(",") + CompactItems(tail)
  }

  function CompactField(name: bytes, value: bytes): bytes {
    Ascii("\"") + Escape(name) + Ascii("\"") + Ascii(":") + value
  }

  function CompactFields(fields: Fields): bytes {
    match fields
    case NoField => []
    case Field(name, value, NoField) => CompactField(name, Compact(value))
    case Field(name, value, rest) => CompactField(name, Compact(value)) + Ascii(",") + CompactFields(rest)
  }

  /** How many lists and records are inside each other. */
  function Height(d: Data): nat {
    match d
    case List(items) => 1 + HeightOfItems(items)
    case Record(fields) => 1 + HeightOfFields(fields)
    case _ => 0
  }

  function HeightOfItems(items: DataList): nat {
    if items == NoItem then 0 else Max(Height(items.head), HeightOfItems(items.tail))
  }

  function HeightOfFields(fields: Fields): nat {
    if fields == NoField then 0 else Max(Height(fields.value), HeightOfFields(fields.rest))
  }

  /** Strings and names are within the writer's limits. */
  predicate WithinLimits(d: Data) {
    match d
    case Words(value) => |value| <= 166_666_666
    case List(items) => ItemsWithinLimits(items)
    case Record(fields) => FieldsWithinLimits(fields)
    case _ => true
  }

  predicate ItemsWithinLimits(items: DataList) {
    items == NoItem || (WithinLimits(items.head) && ItemsWithinLimits(items.tail))
  }

  predicate FieldsWithinLimits(fields: Fields) {
    fields == NoField
    || (0 < |fields.name| <= 166_666_666 && WithinLimits(fields.value) && FieldsWithinLimits(fields.rest))
  }

  // ---------------------------------------------------------------- writing a value

  /** The calls all succeed and lead from `w` to `r`. */
  ghost predicate Writes(w: Writer, capacity: nat, calls: seq<Call>, r: Writer)
    decreases |calls|
  {
    if calls == [] then w == r
    else
      Apply(w, capacity, calls[0]).result == Ok
      && Writes(Apply(w, capacity, calls[0]).writer, capacity, calls[1..], r)
  }

  lemma {:induction false} WritesBoth(w: Writer, capacity: nat, a: seq<Call>, m: Writer, b: seq<Call>, r: Writer)
    requires Writes(w, capacity, a, m) && Writes(m, capacity, b, r)
    ensures Writes(w, capacity, a + b, r)
    decreases |a|
  {
    hide Apply;
    if a == [] {
      EmptyLeft(b);
    } else {
      WritesBoth(Apply(w, capacity, a[0]).writer, capacity, a[1..], m, b, r);
      assert (a + b)[1..] == a[1..] + b;
    }
  }

  lemma {:induction false} WritesOne(w: Writer, capacity: nat, call: Call)
    requires Apply(w, capacity, call).result == Ok
    ensures Writes(w, capacity, [call], Apply(w, capacity, call).writer)
  {
    hide Apply;
  }

  /** Calls that all succeed leave all their results ok and their tokens together. */
  lemma {:induction false} WritesAll(w: Writer, capacity: nat, calls: seq<Call>, r: Writer)
    requires Writes(w, capacity, calls, r)
    ensures WriteAll(w, capacity, calls).writer == r
    ensures Results(w, capacity, calls) == seq(|calls|, _ => Ok)
    ensures Succeeded(w, capacity, calls) == calls
    decreases |calls|
  {
    hide Apply;
    if calls != [] {
      WritesAll(Apply(w, capacity, calls[0]).writer, capacity, calls[1..], r);
      assert [calls[0]] + calls[1..] == calls;
    }
  }

  /** The writer behind a complete value with this text. */
  predicate Behind(w: Writer, text: bytes, r: Writer) {
    r.stack == w.stack && r.needComma && IsAfterValue(r.kind) && r.doc == w.doc + (Comma(w) + text)
  }

  lemma {:induction false} WritesScalar(w: Writer, capacity: nat, d: Data) returns (r: Writer)
    requires !d.List? && !d.Record? && WithinLimits(d) && CanAppendValue(w)
    requires |w.doc| + |Comma(w)| + |Compact(d)| + 11 <= capacity
    ensures Writes(w, capacity, Spelled(d), r) && Behind(w, Compact(d), r)
  {
    hide Escape, IntText, CanAppendValue;
    var call := Spelled(d)[0];
    ScalarTexts(d);
    r := Apply(w, capacity, call).writer;
    WritesOne(w, capacity, call);
  }

  lemma {:induction false} ScalarTexts(d: Data)
    requires !d.List? && !d.Record? && WithinLimits(d)
    ensures CallText(Spelled(d)[0]) == Compact(d) && IsWritable(Spelled(d)[0])
  {
    hide Escape, IntText;
    if d.Words? {
      Assoc([QUOTE], Escape(d.value), [QUOTE]);
    }
  }

  lemma {:induction false} WritesOpen(w: Writer, capacity: nat, item: Container) returns (r: Writer)
    requires CanAppendValue(w) && |w.stack| < 64 && |w.doc| + |Comma(w)| + 1 <= capacity
    ensures Writes(w, capacity, [if item == InArray then AppendBeginArray else AppendBeginObject], r)
    ensures r.stack == w.stack + [item] && !r.needComma && r.kind == if item == InArray then BeginArray else BeginObject
    ensures r.doc == w.doc + (Comma(w) + if item == InArray then Ascii("[") else Ascii("{"))
  {
    hide Ascii, Escape, IntText, Run, CanAppendValue;
    Signs();
    var call := if item == InArray then AppendBeginArray else AppendBeginObject;
    r := Apply(w, capacity, call).writer;
    WritesOne(w, capacity, call);
  }

  lemma {:induction false} WritesClose(w: Writer, capacity: nat, item: Container) returns (r: Writer)
    requires CanAppendEnd(w, item) && |w.doc| + 1 <= capacity
    ensures Writes(w, capacity, [if item == InArray then AppendEndArray else AppendEndObject], r)
    ensures r.stack == w.stack[..|w.stack| - 1] && r.needComma && IsAfterValue(r.kind)
    ensures r.doc == w.doc + if item == InArray then Ascii("]") else Ascii("}")
  {
    hide Ascii, Escape, IntText, Run, CanAppendEnd;
    Signs();
    var call := if item == InArray then AppendEndArray else AppendEndObject;
    r := Apply(w, capacity, call).writer;
    EmptyLeft(if item == InArray then Ascii("]") else Ascii("}"));
    WritesOne(w, capacity, call);
  }

  lemma {:induction false} WritesName(w: Writer, capacity: nat, name: bytes) returns (r: Writer)
    requires CanAppendName(w) && 0 < |name| <= 166_666_666
    requires |w.doc| + |Comma(w)| + |CompactField(name, [])| <= capacity
    ensures Writes(w, capacity, [AppendPropertyName(name)], r)
    ensures r.stack == w.stack && !r.needComma && r.kind == PropertyName
    ensures r.doc == w.doc + (Comma(w) + CompactField(name, []))
  {
    hide Ascii, Escape, CanAppendName, Run;
    Signs();
    assert NameText(Escape(name), []) == CompactField(name, []);
    r := Apply(w, capacity, AppendPropertyName(name)).writer;
    WritesOne(w, capacity, AppendPropertyName(name));
  }

  lemma {:induction false} FieldText(name: bytes, value: bytes)
    ensures CompactField(name, []) + value == CompactField(name, value)
  {
    hide Escape;
    EmptyRight(Ascii("\"") + Escape(name) + Ascii("\"") + Ascii(":"));
  }

  lemma {:induction false} WritesValue(w: Writer, capacity: nat, d: Data) returns (r: Writer)
    requires WithinLimits(d) && CanAppendValue(w) && |w.stack| + Height(d) <= 64
    requires |w.doc| + |Comma(w)| + |Compact(d)| + 11 <= capacity
    ensures Writes(w, capacity, Spelled(d), r) && Behind(w, Compact(d), r)
    decreases d, 0
  {
    hide Writes, CanAppendValue, CanAppendEnd, Ascii, Escape, IntText, Behind, Filled, CompactItems, CompactFields;
    match d
    case List(items) =>
      var outer := WritesOpen(w, capacity, InArray);
      AddedSize(outer, CompactItems(items));
      var inside := WritesItems(outer, capacity, items);
      r := Encloses(w, capacity, InArray, outer, SpelledItems(items), CompactItems(items), inside);
    case Record(fields) =>
      var outer := WritesOpen(w, capacity, InObject);
      AddedSize(outer, CompactFields(fields));
      var inside := WritesFields(outer, capacity, fields);
      r := Encloses(w, capacity, InObject, outer, SpelledFields(fields), CompactFields(fields), inside);
    case _ => r := WritesScalar(w, capacity, d);
  }

  lemma {:induction false} AddedSize(w: Writer, text: bytes)
    requires !w.needComma
    ensures Added(w, text) == text
  {
    EmptyLeft(text);
  }

  /** The brackets around what was written inside them. */
  lemma {:induction false} Encloses(w: Writer, capacity: nat, item: Container, outer: Writer, calls: seq<Call>,
                                    text: bytes, inside: Writer) returns (r: Writer)
    requires CanAppendValue(w) && outer.stack == w.stack + [item] && !outer.needComma
    requires outer.doc == w.doc + (Comma(w) + if item == InArray then Ascii("[") else Ascii("{"))
    requires Writes(w, capacity, [if item == InArray then AppendBeginArray else AppendBeginObject], outer)
    requires Writes(outer, capacity, calls, inside) && Filled(outer, text, inside)
    requires |w.doc| + |Comma(w)| + 2 + |text| <= capacity
    ensures item == InArray ==>
              Writes(w, capacity, [AppendBeginArray] + (calls + [AppendEndArray]), r)
              && Behind(w, Ascii("[") + text + Ascii("]"), r)
    ensures item == InObject ==>
              Writes(w, capacity, [AppendBeginObject] + (calls + [AppendEndObject]), r)
              && Behind(w, Ascii("{") + text + Ascii("}"), r)
  {
    hide Writes, CanAppendValue, CanAppendEnd, Ascii;
    var close := if item == InArray then AppendEndArray else AppendEndObject;
    AddedSize(outer, text);
    MayClose(outer, inside, item);
    r := WritesClose(inside, capacity, item);
    WritesBoth(outer, capacity, calls, inside, [close], r);
    WritesBoth(w, capacity, [if item == InArray then AppendBeginArray else AppendBeginObject], outer,
               calls + [close], r);
    Around(w.doc, Comma(w), if item == InArray then Ascii("[") else Ascii("{"), text,
           if item == InArray then Ascii("]") else Ascii("}"));
    assert (w.stack + [item])[..|w.stack|] == w.stack;
  }

  lemma {:induction false} MayClose(outer: Writer, inside: Writer, item: Container)
    requires TopIs(outer.stack, item) && inside.stack == outer.stack && inside.kind != PropertyName
    ensures CanAppendEnd(inside, item)
  {
  }

  lemma {:induction false} Around(doc: bytes, comma: bytes, open: bytes, inside: bytes, close: bytes)
    ensures doc + (comma + open) + inside + close == doc + (comma + (open + inside + close))
  {
  }

  /** What a list of elements or fields adds inside its container. */
  function Added(w: Writer, text: bytes): bytes {
    if text == [] then [] else Comma(w) + text
  }

  predicate Filled(w: Writer, text: bytes, r: Writer) {
    r.stack == w.stack && r.kind != PropertyName && r.doc == w.doc + Added(w, text)
  }

  lemma {:induction false} NothingAdded(w: Writer, capacity: nat)
    requires w.kind != PropertyName
    ensures Writes(w, capacity, [], w) && Filled(w, [], w)
  {
    EmptyRight(w.doc);
  }

  lemma {:induction false} WritesItems(w: Writer, capacity: nat, items: DataList) returns (r: Writer)
    requires ItemsWithinLimits(items) && TopIs(w.stack, InArray) && w.kind != PropertyName
    requires |w.stack| + HeightOfItems(items) <= 64
    requires |w.doc| + |Added(w, CompactItems(items))| + 11 <= capacity
    ensures Writes(w, capacity, SpelledItems(items), r) && Filled(w, CompactItems(items), r)
    decreases items
  {
    hide Writes, Compact, Spelled, CanAppendValue;
    match items
    case NoItem =>
      r := w;
      NothingAdded(w, capacity);
    case Item(head, tail) =>
      CompactNotEmpty(head);
      CompactItemsNotEmpty(tail);
      InsideArray(w);
      Joined(w.doc, Comma(w), Compact(head), CompactItems(tail));
      var first := WritesValue(w, capacity, head);
      r := WritesItems(first, capacity, tail);
      WritesBoth(w, capacity, Spelled(head), first, SpelledItems(tail), r);
  }

  lemma {:induction false} InsideArray(w: Writer)
    ensures TopIs(w.stack, InArray) && w.kind != PropertyName ==> CanAppendValue(w)
    ensures TopIs(w.stack, InObject) && w.kind != PropertyName ==> CanAppendName(w)
    ensures TopIs(w.stack, InObject) && w.kind == PropertyName ==> CanAppendValue(w)
  {
  }

  lemma {:induction false} CompactNotEmpty(d: Data)
    ensures Compact(d) != []
  {
  }

  lemma {:induction false} CompactItemsNotEmpty(items: DataList)
    ensures CompactItems(items) == [] <==> items == NoItem
  {
    if items.Item? {
      CompactNotEmpty(items.head);
    }
  }

  lemma {:induction false} CompactFieldsNotEmpty(fields: Fields)
    ensures CompactFields(fields) == [] <==> fields == NoField
    ensures fields.Field? ==> CompactField(fields.name, Compact(fields.value)) != []
  {
  }

  lemma {:induction false} Joined(doc: bytes, comma: bytes, head: bytes, tail: bytes)
    ensures doc + (comma + head) + ([COMMA] + tail) == doc + (comma + (head + Ascii(",") + tail))
    ensures doc + (comma + head) + [] == doc + (comma + head)
  {
  }

  lemma {:induction false} WritesFields(w: Writer, capacity: nat, fields: Fields) returns (r: Writer)
    requires FieldsWithinLimits(fields) && TopIs(w.stack, InObject) && w.kind != PropertyName
    requires |w.stack| + HeightOfFields(fields) <= 64
    requires |w.doc| + |Added(w, CompactFields(fields))| + 11 <= capacity
    ensures Writes(w, capacity, SpelledFields(fields), r) && Filled(w, CompactFields(fields), r)
    decreases fields
  {
    hide Writes, Compact, CompactField, Spelled, CanAppendValue, CanAppendName;
    match fields
    case NoField =>
      r := w;
      NothingAdded(w, capacity);
    case Field(name, value, rest) =>
      FieldText(name, Compact(value));
      CompactFieldsNotEmpty(fields);
      CompactFieldsNotEmpty(rest);
      Joined(w.doc, Comma(w), CompactField(name, Compact(value)), CompactFields(rest));
      var first := WritesField(w, capacity, name, value);
      r := WritesFields(first, capacity, rest);
      Assoc([AppendPropertyName(name)], Spelled(value), SpelledFields(rest));
      WritesBoth(w, capacity, [AppendPropertyName(name)] + Spelled(value), first, SpelledFields(rest), r);
  }

  lemma {:induction false} WritesField(w: Writer, capacity: nat, name: bytes, value: Data) returns (r: Writer)
    requires TopIs(w.stack, InObject) && w.kind != PropertyName && 0 < |name| <= 166_666_666
    requires WithinLimits(value) && |w.stack| + Height(value) <= 64
    requires |w.doc| + |Comma(w)| + |CompactField(name, Compact(value))| + 11 <= capacity
    ensures Writes(w, capacity, [AppendPropertyName(name)] + Spelled(value), r)
    ensures Behind(w, CompactField(name, Compact(value)), r)
    decreases value, 1
  {
    hide Writes, Compact, CompactField, Spelled, CanAppendValue, CanAppendName;
    FieldText(name, Compact(value));
    InsideArray(w);
    var named := WritesName(w, capacity, name);
    InsideArray(named);
    r := WritesValue(named, capacity, value);
    WritesBoth(w, capacity, [AppendPropertyName(name)], named, Spelled(value), r);
    EmptyLeft(Compact(value));
    Assoc(w.doc, Comma(w) + CompactField(name, []), Compact(value));
    Assoc(Comma(w), CompactField(name, []), Compact(value));
  }

  /**
   Every value can be written and read back: the calls it spells all succeed on a fresh writer with room for
   the text and eleven bytes more, they leave exactly its compact text, and the reader delivers them.
   */
  lemma {:induction false} EveryValueIsWritten(d: Data, capacity: nat)
    requires WithinLimits(d) && Height(d) <= 64 && |Compact(d)| + 11 <= capacity
    ensures Results(FRESH, capacity, Spelled(d)) == seq(|Spelled(d)|, _ => Ok)
    ensures var w := WriteAll(FRESH, capacity, Spelled(d)).writer;
            Closed(w) && w.doc == Compact(d)
    ensures var run := Run(Init(Compact(d)));
            run.result == ReaderDone && SaysAll(run.tokens, Spelled(d))
  {
    hide Run;
    var r := WritesValue(FRESH, capacity, d);
    WritesAll(FRESH, capacity, Spelled(d), r);
    assert [] + ([] + Compact(d)) == Compact(d);
    NoFragmentSpelled(d);
    WriterThenReaderSays(capacity, Spelled(d));
  }

  lemma {:induction false} NoFragmentSpelled(d: Data)
    ensures NoFragments(Spelled(d))
  {
    match d
    case List(items) => NoFragmentInItems(items);
    case Record(fields) => NoFragmentInFields(fields);
    case _ =>
  }

  lemma {:induction false} NoFragmentInItems(items: DataList)
    ensures NoFragments(SpelledItems(items))
  {
    if items.Item? {
      NoFragmentSpelled(items.head);
      NoFragmentInItems(items.tail);
    }
  }

  lemma {:induction false} NoFragmentInFields(fields: Fields)
    ensures NoFragments(SpelledFields(fields))
  {
    if fields.Field? {
      NoFragmentSpelled(fields.value);
      NoFragmentInFields(fields.rest);
    }
  }
}
